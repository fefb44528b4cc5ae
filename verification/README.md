# Verification of minerby's mining core

minerby is a CPU miner: a pool client turns a pool's messages into jobs, a pool of worker
threads scans nonces over the current job, and every digest at or below the target goes back
to the pool as a share. This project models that path in Dafny and proves what comes out at the
far end: along every interleaving of the threads, every share reported is a hash of the job's
own bytes with only the nonce replaced, and at most the target as a 256-bit number. A Stratum
share is a block header of the pool's own fields. A Monero share passes the check that the pool
makes under the job's seed whenever hasher, cache and publication were of one key; the code does
not always see to that, and the model says exactly which workers can slip.

Run `dafny verify dfyconfig.toml` to check everything.

## How the model is organised

| file | models |
|---|---|
| `Arith`, `Bits`, `Bytes`, `Jobs` | facts about products and quotients; bitwise operations; byte strings as numbers; the mining job and nonce splicing |
| `MinerPool` | the worker pool and `on_job` as a transition system, one step per atomic access, any number of workers |
| `PoolSafety`, `PoolWork`, `PoolTheorems` | what every step keeps, and what follows for every reachable state and run |
| `PoolHashers`, `PoolKeys` | hasher rebuilding; which seed a job is published under and which workers can hash it under another |
| `PoolCommands` | what `on_job`, `clear_work` and `stop` come to, in every interleaving |
| `PoolLiveness`, `PoolProgress` | in fair runs: the end of `pause()` and `stop()`; every nonce tried on an installed job; who stops hashing after `clear_work` |
| `PoolWitness` | runs that show what is not promised |
| `HashLoop` | the hashing loop in place over a byte array, and its agreement with the transition system |
| `Fips180`, `ShaLaws`, `ShaConstants` | FIPS 180-4 as a specification; what its functions do, bit by bit and sum by sum; its constants as roots of primes |
| `Streaming`, `Sha256` | block streaming for any compression function, the streaming class |
| `Target`, `TargetFormats` | comparison, difficulty targets, nBits, Monero targets |
| `Binary64`, `Difficulty64`, `RoundTrip` | rounding to 53 bits; the 64-bit difficulty of a target under it; exactly which targets it gives back |
| `Merkle`, `Work`, `Hex` | the duplicate-last Merkle tree, coinbase and header assembly, hexadecimal text |
| `LineReader`, `Stratum`, `Monero` | line framing and the two pool clients over parsed messages |
| `EndToEnd` | from a pool's message to a share and back |

**The worker pool.** `MinerPool.Next` performs one atomic access of one thread, so a run is a
sequence of actions and each sequentially consistent interleaving is some run. A worker's
program counter names the line of `run` it stands at. The single controller thread runs
`on_job`, `clear_work` and `stop`. A hasher is known by the number of re-keys completed when it
was built. A re-key changes the one cache in place, so a hasher computes an arbitrary function of
that number, of the re-keys completed at the call, and of the blob. The history fields (`log`,
`tries`, `shares`, `stamps`, `seeds`, `pass`, `wrapped`) are never branched on. The generation counters are
unbounded; `hashes_` is taken modulo 2^64; `in_flight_` is an integer and is proved to stay
between 0 and the thread count, so it never wraps.

**What is false of the code, and when.** Each item has a theorem that says when it fails and a
lemma with a run, a session or an input that fails.

- "No stale hasher hashes after `resume()`" fails if and only if `rebuild_hashers` finds the
  worker past its generation check and not yet past its pause recheck (and not about to turn back
  for want of work), or between building a hasher and recording its generation
  (`PoolHashers.StaleHashIff`, `PoolWitness.StaleHasherWitness`). The comment on
  `rebuild_hashers` in `src/miner/worker.hpp` reads as if this could not happen.
- "No hasher is built while the cache is re-keyed" fails if and only if, during the re-key, some
  worker is building one already, or has passed its pause check and has yet to act on an earlier
  `rebuild_hashers` (`PoolHashers.BuildOverlapsIff`, `PoolWitness.BuildOverlapsRekeyWitness`).
- "Every hash is made with hasher, cache and publication of one key". `on_job` re-keys, rebuilds
  and resumes before it publishes. A worker can go on to hash with them at odds if and only if, at
  the re-key, it has an earlier job at hand or can still copy one, or is on its way into the loop
  with one, or was caught before its copy with an older hasher (`PoolKeys.KeyMixIff`,
  `PoolWitness.NewerKeyWitness`, `PoolWitness.OlderKeyWitness`). After a re-key of a stopped pool
  it can if and only if an old job is still installed (`PoolKeys.RestartMixIff`).
- "A worker that recorded generation g works on publication g or later" fails if and only if the
  copy falls between the bump and the install of that same publication
  (`PoolTheorems.StaleCopyIff`, `PoolWitness.StaleWorkWitness`); the stale job then stays until
  the next bump.
- "Every answer from the pool is counted" fails if and only if a later share was submitted before
  the answer came (`Stratum.AnswerCountsIff`, `Stratum.LateAnswerIsLost`).
- "Every answer counted is that of one share" fails if and only if some reply carries id -1
  before the first share of the whole session, on a client that has issued a subscribe and an
  authorize id, or some reply answers the latest share again
  (`Stratum.AnswersMatchSharesIff`, `Stratum.UnaskedAnswerCounts`,
  `Stratum.RepeatedAnswerCounts`).
- "A successful `connect` has heard the pool's subscription" fails if and only if an extranonce1
  was known from an earlier connection (`Stratum.ConnectHearsIff`,
  `Stratum.ReconnectHearsNothing`).
- "A successful `connect` has a first job", as the comment in `src/pool/pool_client.hpp` says,
  holds if and only if there was one before or one was read while the extranonce1 was awaited
  (`Stratum.ConnectHasJobIff`, `Stratum.ReconnectHearsNothing`).
- "The Stratum nonce reads like the other header fields" holds if and only if its bytes are a
  palindrome (`Stratum.NonceReadsBigEndianIff`, `Stratum.NonceOneIsMisread`).
- "`target_from_difficulty64` is the inverse of `target_to_difficulty`", as its comment in
  `src/pow/target.hpp` says, holds for a target if and only if its low 24 bytes are zero and its
  high word is all ones, or a nonzero word of at most 53 significant bits with significand m
  between 2^52 and 2^53 and D = floor((2^106 + m) / 2m) such that D (2m - 1) < 2^106 and, for words
  from 2^52 up, D (2m + 1) > 2^106 (`RoundTrip.RoundTripIff`). So 2^63 + 1 is lost, and 93 comes
  back as 92 (`Difficulty64.LongWordIsLost`, `Difficulty64.SmallWordIsLost`). What comes back is
  always near (`Difficulty64.RoundTripError`).

**Preconditions taken from the code.** The 32-bit sum `nonce_offset + 4` must not wrap. A positive
difficulty must be large enough for the conversion to `uint64_t` to be defined
(`Target.Convertible`, which is exactly that condition). `rebuild_job` needs an extranonce2 size
that fits the 64-bit counter, because `parse_subscribe` stores the size before it checks it.

## Model

| member | source | states |
|---|---|---|
| `PoolTheorems.NoHashWhileQuiet` | src/miner/worker.cpp:46-54 | in every reachable state, for any number of workers, `in_flight_` is the number of workers between increment and decrement and never wraps; between the return of `pause()` and the store of `resume()` no action of any thread is a hash |
| `PoolTheorems.RekeyNeverOverlapsHashing` | src/app/main.cpp:269-279 | over the whole of any run of actions during which the controller is re-keying, not one hash call is made |
| `PoolTheorems.InvRun` | src/miner/worker.cpp:60-135 | lifetime, handshake, hash count, publication order, nonce scan and share history hold along every run |
| `PoolTheorems.SharesAreGenuineAndComplete` | src/miner/worker.cpp:112-124 | every share is on a published job, its digest is the hash of that job's blob with only the four nonce bytes replaced and at most the target; every attempt that meets its target was reported |
| `PoolTheorems.HashesAreCounted` | src/miner/worker.cpp:111-133 | hash calls made are `hashes_` plus the workers' unflushed counts, modulo 2^64, chunks cut short by a wrap included |
| `PoolTheorems.StopFlushesAll` | src/miner/worker.cpp:24-31 | once `stop()` has joined the threads, `hashes_` alone is exact |
| `PoolCommands.ClearWorkTakesEffect` | src/miner/worker.cpp:40-44 | from every reachable idle state, whatever the workers do until the controller is idle again, `clear_work` leaves a generation one higher with no job under it and one more publication in the log, of none |
| `PoolCommands.StopTakesEffect` | src/miner/worker.cpp:24-31 | `stop` clears `running_` at once and ends with no thread, not paused, the work as it was, and `hashes_` exact |
| `PoolCommands.JobTakesEffect` | src/app/main.cpp:264-283 | `on_job` ends with the job installed under the next generation on a running, unpaused pool with all its threads; the cache is re-keyed to the seed, and the hashers are told if the pool was running, exactly if the job names a seed that is not the current one |
| `PoolCommands.CommandIsCarriedOut` | src/app/main.cpp:264-283 | in every fair run each command comes to its end with that effect |
| `PoolCommands.StopComesToRest` | src/miner/worker.cpp:24-31 | in every fair run `stop` comes to a state with no thread in which `hashes_` is exact |
| `PoolTheorems.JobFollowsGeneration` | src/miner/worker.cpp:81-92 | a worker's job is the published job of its number, at most one publication behind the recorded generation, never ahead of the installed one |
| `PoolTheorems.JobNeverMovesBack` | src/miner/worker.cpp:81-92 | no step takes a worker's job back to an earlier publication |
| `PoolTheorems.StaleCopyIff` | src/miner/worker.cpp:33-44 | a copy leaves the worker behind its recorded generation if and only if that publication is between bump and install |
| `PoolTheorems.JobSticksUntilBump` | src/miner/worker.cpp:81-82 | over every run without a bump, a worker that has recorded the current generation keeps its job, stale or not |
| `PoolTheorems.CleanReadIsFresh` | src/miner/worker.cpp:81-87 | if no publication was between bump and install when the generation was read, the job copied is at least that new, however long the copy waits |
| `PoolWork.WrapTest` | src/miner/worker.cpp:126-130 | `nonce < threads_` after the addition holds exactly on 32-bit overflow |
| `PoolTheorems.PassIsTried` | src/miner/worker.cpp:88-91 | from a refresh to the first wrap, the recorded pass is exactly the sequence of nonces that worker tried |
| `PoolTheorems.EveryNonceIsTried` | src/miner/worker.cpp:112-131 | when all workers hold one publication and have wrapped, every 32-bit nonce was tried on it by the worker with its residue, and is a share exactly if its digest meets the target |
| `PoolTheorems.FirstPassesPartition` | src/miner/worker.cpp:112-131 | when all workers have wrapped, each 32-bit nonce is in exactly one first pass, once, that of the worker with its residue modulo the thread count |
| `PoolWork.RoomChecked` | src/miner/worker.cpp:94-97 | the size guard passes exactly when the nonce window lies inside the blob |
| `PoolHashers.ParkedWorkerRebuilds` | src/miner/worker.cpp:70-79 | a worker that `rebuild_hashers` does not catch builds a hasher after that re-key before its next hash, in every continuation |
| `PoolHashers.BuildOverlapsIff` | src/app/main.cpp:272-279 | before a re-key of a running pool is over, a worker can come to build a hasher if and only if it is building one or has passed its pause check and not yet acted on an earlier `rebuild_hashers` |
| `PoolHashers.StaleHashIff` | src/miner/worker.cpp:56-79 | some continuation hashes with a hasher older than the re-key if and only if the worker was caught |
| `PoolKeys.PublishedUnderItsSeed` | src/app/main.cpp:269-283 | in every reachable state each publication that came with a seed was made under the re-key for that very seed, and a re-key happens only for a seed that differs from the current one |
| `PoolKeys.KeyMixIff` | src/app/main.cpp:269-283 | after a re-key of a running pool, some continuation without a further one has a worker hash with hasher, cache and publication not all of one epoch if and only if, when `rebuild_hashers` is called, it has or can copy an earlier job, is on its way into the loop with one, or was caught before its copy with an older hasher |
| `PoolKeys.RestartMixIff` | src/app/main.cpp:269-283 | after a re-key of a stopped pool, the threads started next can do so if and only if a job that can be hashed is still installed |
| `PoolKeys.OlderKeyRun` | src/miner/worker.cpp:76-87 | from every such caught worker, a run in which it hashes the next publication under the older key |
| `PoolKeys.NewerKeyRun` | src/app/main.cpp:277-283 | from every worker with an earlier job at hand, a run in which it hashes it under the newer key |
| `PoolWitness.OlderKeyWitness` | src/miner/worker.cpp:76-87 | a reachable state and a run in which a new publication is hashed under the old key |
| `PoolWitness.NewerKeyWitness` | src/app/main.cpp:277-283 | a reachable state with no worker caught, and a run in which an old publication is hashed under the new key |
| `PoolWitness.StaleHasherWitness` | src/miner/worker.cpp:105-109 | a reachable state and a run in which a stale hasher hashes |
| `PoolWitness.StaleWorkWitness` | src/miner/worker.cpp:33-38 | a reachable state in which generation 2 is recorded over job 1 |
| `PoolWitness.BuildOverlapsRekeyWitness` | src/miner/worker.cpp:60-63 | a reachable state in which a hasher is being built during a re-key |
| `PoolLiveness.PausedWorkIsBounded` | src/miner/worker.cpp:105-132 | while `paused_` stays set, each worker increments `in_flight_` at most once more and does at most 16 more hashes, in any interleaving |
| `PoolLiveness.PauseReturns` | src/miner/worker.cpp:46-52 | in every fair infinite run the wait loop of `pause()` ends |
| `PoolLiveness.StopReturns` | src/miner/worker.cpp:24-31 | in every fair infinite run the join of `stop()` ends, with no thread left |
| `PoolProgress.WorkIsTakenUpIff` | src/miner/worker.cpp:81-92 | in every fair run in which the pool keeps running and nothing is published after a publication was installed, a worker comes to hold that publication if and only if it was not left with an older one by a copy between bump and install |
| `PoolProgress.EveryNonceComesUp` | src/miner/worker.cpp:70-134 | and if no worker was, and it is a job with room, there comes a time when every 32-bit nonce has been tried on it, and reported exactly if its digest meets the target |
| `PoolProgress.ClearedWorkerStopsIff` | src/miner/worker.cpp:94-97 | after `clear_work`, in such a run, a worker stops hashing for good if and only if it was not left with an older job it can hash by a copy between bump and install |
| `HashLoop.ScanChunk` | src/miner/worker.cpp:111-131 | the in-place loop takes 1 to 16 turns, ends exactly at the first wrap or the sixteenth, and reports the winners among its attempts in order |
| `HashLoop.PoolRunsTheLoop` | src/miner/worker.cpp:112-131 | n steps of a hashing worker in the pool are n turns of that loop, attempts and shares included |
| `HashLoop.ChunkIsPoolSteps` | src/miner/worker.cpp:111-131 | what the in-place loop leaves (blob, nonce, count, shares) is where the pool arrives |
| `Bits.OrDisjoint` | src/pow/sha256.cpp:19-19 | a number shifted by k bits and one of k bits share no bit, so their bitwise or is their sum |
| `Bits.JoinIsSum` | src/pow/sha256.cpp:39-42 | four bytes shifted into place and joined by bitwise or are the big-endian word |
| `Bits.OpsAt` | src/pow/sha256.cpp:55-58 | exclusive or, conjunction and union, bit by bit |
| `ShaConstants.RoundConstantsAreCubeRoots` | src/pow/sha256.cpp:6-17 | round constant t is the first 32 fraction bits of the cube root of prime number t, for all 64 |
| `ShaConstants.InitialWordsAreSquareRoots` | src/pow/sha256.cpp:24-31 | the initial hash value is the same of the square roots of the first eight primes |
| `ShaLaws.RotrAt` | src/pow/sha256.cpp:19-19 | bit i of the rotation by n is bit i + n modulo 32 |
| `ShaLaws.BigSigmasAt` | src/pow/sha256.cpp:54-57 | each bit of the two round sigmas is the parity of the three bits that the standard names |
| `ShaLaws.SmallSigmasAt` | src/pow/sha256.cpp:45-46 | and of the two schedule sigmas |
| `ShaLaws.ChAt` | src/pow/sha256.cpp:55-55 | each bit of the first word chooses between the other two |
| `ShaLaws.MajAt` | src/pow/sha256.cpp:58-58 | each bit is that of the majority |
| `ShaLaws.ScheduleLaw` | src/pow/sha256.cpp:37-48 | the first sixteen schedule words are the block read big-endian, the others the sum of four earlier ones modulo 2^32 |
| `ShaLaws.T1Sum` | src/pow/sha256.cpp:56-56 | the first temporary is the sum of five terms modulo 2^32 |
| `ShaLaws.RoundLaw` | src/pow/sha256.cpp:59-67 | the eight variables after a round, from the two temporaries |
| `ShaLaws.RoundsLaw` | src/pow/sha256.cpp:53-68 | the rounds take constants and schedule words in turn |
| `ShaLaws.CompressLaw` | src/pow/sha256.cpp:50-77 | the variables start as the hash value and are added to it modulo 2^32 |
| `ShaLaws.PadLaw` | src/pow/sha256.cpp:91-101 | the padded message is the message, the byte 0x80, fewer than 64 zeros, and the bit length modulo 2^64, big-endian, in whole blocks |
| `ShaLaws.AbsorbLaw` | src/pow/sha256.cpp:80-89 | the hash value starts at the initial one and takes the blocks in order |
| `ShaLaws.DigestLaw` | src/pow/sha256.cpp:103-108 | the digest is the eight words, each big-endian |
| `Sha256.Hasher.constructor` | src/pow/sha256.cpp:23-34 | a new object is at the standard's initial hash value with nothing buffered |
| `Sha256.Hasher.Transform` | src/pow/sha256.cpp:36-78 | schedule, rounds and final additions are the compression function of section 6.2.2 of FIPS 180-4 |
| `Sha256.BuildSchedule` | src/pow/sha256.cpp:37-48 | the two schedule loops fill the 64 words of the standard's message schedule |
| `Sha256.RunRounds` | src/pow/sha256.cpp:50-68 | the round loop is the recursive 64 rounds of the standard |
| `Sha256.Hasher.Update` | src/pow/sha256.cpp:80-89 | the object's abstract state is fed byte by byte, buffer boundary included |
| `Sha256.Hasher.Finish` | src/pow/sha256.cpp:91-109 | the padding loop ends, feeds exactly the padding that the state calls for, and the digest of the result is written out |
| `Streaming.FeedAllRepresents` | src/pow/sha256.cpp:80-89 | buffer, bit count and hash value always stand for the concatenation of the bytes fed, however they were split |
| `Streaming.PaddingIsStandard` | src/pow/sha256.cpp:91-101 | what is fed from the state is the padding of the whole message, its length modulo 2^64 |
| `Streaming.StreamingIsHashing` | src/pow/sha256.cpp:80-109 | feeding a message and then its padding leaves the hash value of the padded message |
| `Fips180.PadIsMinimal` | src/pow/sha256.cpp:97-97 | no smaller number of zero bytes completes the block |
| `Fips180.PadInjective` | src/pow/sha256.cpp:91-101 | messages below 2^61 bytes with equal padding are equal |
| `Sha256.HashChunks` | src/pow/sha256.cpp:80-109 | any sequence of `update` calls on a fresh object and then `finish` gives the FIPS 180-4 digest of the concatenated bytes |
| `Sha256.Double` | src/pow/sha256.cpp:117-121 | `sha256d` is the digest of the digest |
| `Target.MeetsTarget` | src/pow/target.cpp:111-117 | true exactly when the hash is at most the target as a 256-bit integer |
| `Target.TargetFromDifficulty` | src/pow/target.cpp:9-38 | the bytes encode 0xffff0000 * 2^192 / diff rounded down to the word unit of its size, or all ones for a non-positive difficulty |
| `Target.ScaleDown` | src/pow/target.cpp:19-21 | the scaling loop divides by a power of 2^32 and stops at the word index of the quotient |
| `Target.TargetLaw` | src/pow/target.cpp:9-38 | the target is the multiple of 2^(32 k) next below 0xffff0000 * 2^192 / diff, with k falling from 6 by one for each factor of 2^32 in the difficulty |
| `Target.DifficultyBracket` | src/pow/target.cpp:9-38 | the target is at most the ideal and, up to difficulty 2^192, short of it by less than one part in 0xffff0000 |
| `Target.DifficultyAntitone` | src/pow/target.cpp:9-38 | a higher difficulty never has a higher target, across every change of the scaling index |
| `Target.TargetValueUnique` | src/pow/target.cpp:9-38 | the description of the target determines it |
| `Target.AcceptedAtLower` | src/pow/target.cpp:111-117 | a hash accepted at one difficulty is accepted at every lower one |
| `TargetFormats.TargetFromCompact` | src/pow/target.cpp:40-63 | for every 32-bit nBits the decoded value is the 23-bit mantissa shifted right by whole bytes, or mantissa * 256^(exp - 3) modulo 2^256 |
| `TargetFormats.CompactLaw` | src/pow/target.cpp:40-58 | the value is that of the top byte as exponent and the low 23 bits as mantissa |
| `TargetFormats.CompactIsDifficultyOne` | src/pow/target.cpp:40-63 | 0x1d00ffff is the target of difficulty 1 |
| `TargetFormats.MoneroTargetFromHex` | src/pow/target.cpp:65-92 | succeeds exactly on 4, 8 or 32 bytes of hex: 32 bytes are the number itself, 8 its high word, 4 the high word with the difficulty of the compact value, the largest such, or all ones for zero |
| `TargetFormats.CompactDivisor` | src/pow/target.cpp:79-83 | the inner quotient of the compact expansion is never zero |
| `TargetFormats.ExpandMonotone` | src/pow/target.cpp:83-83 | the expansion is monotone in the compact value |
| `TargetFormats.ExpandAtLeast` | src/pow/target.cpp:83-83 | the high word is at least c * (2^32 + 1) |
| `TargetFormats.ExpandInverts` | src/pow/target.cpp:83-83 | floor((2^64 - 1) / hi) = floor((2^32 - 1) / c) |
| `TargetFormats.ExpandIsLargest` | src/pow/target.cpp:83-83 | a word has at least the difficulty of the compact value if and only if it is at most the expansion, which this determines |
| `TargetFormats.HighTargetValue` | src/pow/target.cpp:90-91 | a high word hi encodes hi * 2^192 and reads back as hi |
| `TargetFormats.Accumulate` | src/pow/target.cpp:94-96 | joining the bytes by bitwise or gives their little-endian value |
| `Binary64.RoundError` | src/pow/target.cpp:98-98 | rounding to binary64 is off by at most one part in 2^53 |
| `Binary64.RoundIsNearest` | src/pow/target.cpp:98-98 | in the binade from 2^52 rounding gives the nearest whole number, the even one of two, and other binades are shifts of it |
| `Binary64.TruncatedFits` | src/pow/target.cpp:104-106 | a binary64 number cut to a whole number has at most 53 significant bits |
| `Difficulty64.TargetToDifficulty` | src/pow/target.cpp:94-99 | the high word is rounded, 2^64 divided by it and the quotient rounded; zero for a zero high word |
| `Difficulty64.TargetFromDifficulty64` | src/pow/target.cpp:101-109 | the high word is the rounded quotient of 2^64 by the difficulty, cut to a whole number that always fits 64 bits, or all ones at difficulty 1 and below; zeros elsewhere |
| `RoundTrip.RoundTripIff` | src/pow/target.cpp:94-109 | for every target the two functions undo each other if and only if the low 24 bytes are zero and the nonzero high word is all ones, or has at most 53 significant bits and two products of whole numbers made from it lie on the right sides of 2^106 |
| `RoundTrip.FitsIff` | src/pow/target.cpp:98-98 | a whole number converts to binary64 unchanged if and only if it has at most 53 significant bits |
| `RoundTrip.SecondQuotient` | src/pow/target.cpp:98-106 | a significand comes back from the two rounded quotients as the whole number nearest to 2^105 over the first quotient, never a tie |
| `Difficulty64.DifficultyIsWord` | src/pow/target.cpp:94-98 | the difficulty is zero for a zero high word, and otherwise that of the word |
| `Difficulty64.WordLaw` | src/pow/target.cpp:98-98 | which is the rounding of the exact quotient of 2^64 by the rounded word |
| `Difficulty64.HighLaw` | src/pow/target.cpp:101-106 | the high word is the whole part of the rounded quotient of 2^64 by the difficulty |
| `Difficulty64.RoundTripError` | src/pow/target.cpp:94-109 | the high word that comes back is off by at most one part in 2^51, and one |
| `Difficulty64.LongWordIsLost` | src/pow/target.cpp:94-99 | a high word of 2^63 + 1 does not come back |
| `Difficulty64.SmallWordIsLost` | src/pow/target.cpp:94-109 | a high word of 93 comes back as 92 |
| `Merkle.PathIgnoresFirst` | src/stratum/work.cpp:35-44 | the sibling path of leaf 0 does not depend on leaf 0 |
| `Merkle.FoldOfPathIsRoot` | src/stratum/work.cpp:35-44 | folding leaf 0 with its path gives the root of the duplicate-last tree |
| `Merkle.BranchFoldsToRoot` | src/stratum/work.cpp:35-44 | whatever coinbase hash comes first, the branch folds to the root of the tree with that leaf |
| `Merkle.NextLevelAt` | src/stratum/work.cpp:35-44 | node i of the next level hashes nodes 2i and 2i + 1, or the last with itself |
| `Merkle.FoldLaw` | src/stratum/work.cpp:37-44 | the running hash comes first and the branch node second |
| `Work.CoinbaseLaw` | src/stratum/work.cpp:28-33 | the coinbase is the first part, extranonce1, extranonce2 and the second part, in that order |
| `Work.FoldBranch` | src/stratum/work.cpp:35-44 | the loop succeeds exactly when every branch node is 32 bytes of hex, with the fold as result |
| `Work.FillHeader` | src/stratum/work.cpp:52-84 | the header array is filled with the 80-byte layout |
| `Work.DecodeLayout` | src/stratum/work.cpp:52-84 | an independent decoder recovers version, previous hash, Merkle root, time and bits, and a zero nonce |
| `Work.WordSwappedReads` | src/stratum/work.cpp:61-67 | each word of the header's previous hash, read little-endian, is the pool's word read big-endian |
| `Work.HeaderLaw` | src/stratum/work.cpp:52-84 | what the decoded fields say of the 80 bytes, offset by offset |
| `Work.WordSwappedTwice` | src/stratum/work.cpp:61-67 | swapping the words of the previous hash twice gives it back |
| `Work.SplicedHeader` | src/stratum/work.cpp:84-87 | writing a nonce at offset 76 changes the decoded nonce and no other field |
| `Work.BuildWork` | src/stratum/work.cpp:20-96 | true exactly when all hex fields decode and have the required lengths; on failure the job is unchanged; on success the header decodes to the notify's fields and the target is that of the difficulty |
| `Work.EncodeExtranonce2` | src/stratum/work.cpp:11-18 | the loop writes the fixed-width big-endian hexadecimal of the counter |
| `Work.Extranonce2Law` | src/stratum/work.cpp:11-18 | it reads back big-endian as the counter modulo 256^size, in that many bytes |
| `Work.CoinbasesDiffer` | src/stratum/work.cpp:28-33 | counters that differ modulo 256^size give different coinbases |
| `Hex.HexValIff` | src/util/hex.hpp:22-27 | the value of each of the 22 characters, and no other, is its place in the digits or the letters of either case |
| `Hex.IsHexIff` | src/util/hex.hpp:29-40 | hexadecimal text is text of even length over those characters |
| `Hex.ToHex` | src/util/hex.hpp:11-20 | the loop writes two lower-case digits a byte |
| `Hex.FromHex` | src/util/hex.hpp:29-40 | succeeds exactly on hexadecimal text of even length, with the bytes it spells |
| `Hex.Be32FromHex` | src/util/hex.hpp:43-48 | succeeds exactly on eight hexadecimal digits, with their big-endian value |
| `Hex.DecodeEncode` | src/util/hex.hpp:11-40 | decoding undoes encoding |
| `Hex.EncodeDecode` | src/util/hex.hpp:11-40 | encoding what was decoded gives the text in lower case |
| `LineReader.TcpClient.ReadLine` | src/net/tcp_client.cpp:120-143 | a call returns the next line of the stream or loses nothing: raw consumed lines plus `rx_` are the bytes received, and a failure means a failed `recv`, no complete line, or the size guard |
| `LineReader.LinesConcat` | src/net/tcp_client.cpp:125-130 | splitting a stream at a line boundary splits its lines |
| `LineReader.LinesOfCrLf` | src/net/tcp_client.cpp:125-130 | a stream of lines ended by carriage return and newline is split into those very lines |
| `LineReader.LinesOfLf` | src/net/tcp_client.cpp:125-130 | and so is one of lines ended by newline alone, if none ends with a carriage return |
| `LineReader.ReturnedIsPrefix` | src/net/tcp_client.cpp:120-143 | the lines returned are a prefix of the stream's lines, and all of them when no newline is left in the buffer |
| `LineReader.ReadStream` | src/net/tcp_client.cpp:120-143 | a caller that keeps reading gets exactly the stream's lines, for every chunking and every place of timeouts and guard failures |
| `Stratum.StratumV1Client.RebuildJob` | src/pool/stratum_v1_client.cpp:68-77 | the counter advances, modulo 2^64, exactly when there is a job; the job handed out is built from the session's fields and the old counter |
| `Stratum.StratumV1Client.HandleLine` | src/pool/stratum_v1_client.cpp:79-141 | each message has its effect on the session, and the callback made is the one for it |
| `Stratum.StratumV1Client.Connect` | src/pool/stratum_v1_client.cpp:31-66 | a connection issues a subscribe id and then an authorize id, as far as the sends succeed, then reads up to twenty times until an extranonce1 is known or the socket is closed; it succeeds exactly when one is known, and makes the callback of each message read |
| `Stratum.AwaitStops` | src/pool/stratum_v1_client.cpp:53-55 | the wait handles polls up to the first that leaves an extranonce1 known or the socket closed |
| `Stratum.ConnectHearsIff` | src/pool/stratum_v1_client.cpp:53-56 | a successful wait read this connection's subscription if and only if no extranonce1 was known before |
| `Stratum.ConnectHasJobIff` | src/pool/stratum_v1_client.cpp:53-56 | after the wait there is a job if and only if there was one before or one was read while the extranonce1 was awaited |
| `Stratum.ReconnectHearsNothing` | src/pool/stratum_v1_client.cpp:53-56 | a session whose second connection succeeds on the first one's extranonce1 without reading anything and without a job |
| `Stratum.StratumV1Client.SubmitShare` | src/pool/stratum_v1_client.cpp:143-155 | the submit takes a fresh id and carries the job's ids and the nonce's little-endian bytes |
| `Stratum.SessionHolds` | src/pool/stratum_v1_client.cpp:79-132 | over every session the client holds what the events say: the last difficulty set, the last notify, the last name and size told in answer to the latest subscribe, whether it has a job and is open |
| `Stratum.RebuildsFrom` | src/pool/stratum_v1_client.cpp:92-109 | a rebuild works from the last job, name, size and difficulty, the message just read included |
| `Stratum.RebuildIsRecorded` | src/pool/stratum_v1_client.cpp:68-72 | and from the next counter, exactly when there is a job |
| `Stratum.IssuedIdsIncrease` | src/pool/stratum_v1_client.cpp:31-57 | over any session, reconnects included, issued ids strictly increase |
| `Stratum.ReplyHasOneRole` | src/pool/stratum_v1_client.cpp:118-139 | a reply id other than -1 matches at most one of subscribe, authorize and last submit |
| `Stratum.ReplyCountsIff` | src/pool/stratum_v1_client.cpp:118-139 | in every session a reply counts as a share's answer if and only if it has the id of the latest share or, before any share, id -1 on a connection that has issued its two ids |
| `Stratum.AnswersMatchSharesIff` | src/pool/stratum_v1_client.cpp:118-139 | each answer counted is that of one share, and of one only, if and only if no reply is unasked and none answers the latest share again |
| `Stratum.AnswersWithinSubmits` | src/app/main.cpp:287-290 | against such a pool accepted plus rejected never exceeds the shares submitted |
| `Stratum.AnswerCountsIff` | src/pool/stratum_v1_client.cpp:135-139 | the answer to a share is counted if and only if no later share was submitted before it came |
| `Stratum.LateAnswerIsLost` | src/pool/stratum_v1_client.cpp:135-139 | a session in which the answer to a share comes after the next share and is not counted |
| `Stratum.UnaskedAnswerCounts` | src/pool/stratum_v1_client.cpp:118-139 | a session in which a reply with id -1 counts as an accepted share before any was submitted |
| `Stratum.RepeatedAnswerCounts` | src/pool/stratum_v1_client.cpp:135-139 | a session in which one share, answered twice, counts as two |
| `Stratum.SessionCoinbasesDiffer` | src/pool/stratum_v1_client.cpp:68-72 | over a whole session, rebuilds from the same coinbase parts fewer than 256^size rebuilds apart have different coinbases |
| `Stratum.NonceReadsBigEndianIff` | src/pool/stratum_v1_client.cpp:144-147 | the nonce sent reads back little-endian, and big-endian if and only if its bytes are a palindrome |
| `Stratum.NonceOneIsMisread` | src/pool/stratum_v1_client.cpp:144-147 | the nonce 1 reads big-endian as 2^24 |
| `Monero.MoneroClient.ApplyJob` | src/pool/monero_client.cpp:89-115 | succeeds exactly on a well-formed job, hands out its fields with the nonce at 39, and changes the difficulty even when only the seed or the height is bad |
| `Monero.MoneroClient.Handle` | src/pool/monero_client.cpp:117-153 | job pushes, login replies and share answers have their effect, login first |
| `Monero.MoneroClient.Submit` | src/pool/monero_client.cpp:155-169 | the message carries a fresh id, the session, the job id, and the hex of nonce and digest |
| `Monero.SubmitRebuildsShare` | src/pool/monero_client.cpp:155-168 | decoding `nonce` and `result` and splicing at 39 rebuilds the share's own blob and digest |
| `EndToEnd.MoneroShareAcceptedIff` | src/app/main.cpp:264-298 | along every run fed by the Monero client, the pool, hashing the rebuilt blob under the seed of the job message, accepts a submitted share if and only if that hash is what the worker's hasher computed, on the cache as it was, for the blob |
| `EndToEnd.MoneroSharesPassPoolCheck` | src/app/main.cpp:293-298 | every share hashed with hasher, cache and publication of one epoch passes the pool's check against the job message: same job id, result equal to the hash of the rebuilt blob under the job's seed, at most the target sent |
| `EndToEnd.MoneroHandsOut` | src/pool/monero_client.cpp:89-110 | whatever the Monero client hands to `on_job` is a job and seed of the kind the two results above speak of |
| `EndToEnd.StratumHandsOut` | src/pool/stratum_v1_client.cpp:68-73 | whatever the Stratum client hands to `on_job` over a session is built from that session's last job, last name and last difficulty |
| `EndToEnd.StratumSharesAreBlocksBelowTarget` | src/app/main.cpp:264-298 | along every run fed by the Stratum client, every share is a header whose bytes are the last notify's version, previous hash word by word, time and bits, the folded root and the nonce, and its hash is at most the target of the last difficulty the pool set |
| `EndToEnd.BitcoinSharesAreBlocksBelowTarget` | src/pow/sha256d_hasher.cpp:7-9 | the same with every hash, in the Merkle fold and in the workers, the FIPS 180-4 double digest |
| `EndToEnd.HeaderCommitsToBlock` | src/stratum/work.cpp:35-44 | if the branch sent is the path of the block's first transaction, the share's header commits to that block with the miner's coinbase |

## Left out

- Weak memory: `pause()` uses a release store and an acquire load; the handshake is proved for sequentially consistent interleavings only.
- Classes for the worker pool: its threads and methods are a transition system on values, because a property of all interleavings needs one; `HashLoop` has the hashing loop in place.
- IEEE rounding in `target_from_difficulty`: Stratum difficulties are real numbers; the 64-bit difficulty is modelled with its rounding.
- Exponent range of binary64: no value in the 64-bit difficulty comes near its ends.
- Work.BuildWork: takes the double hash as a parameter instead of calling `Sha256.Double`; `EndToEnd.Sha256d` is what it stands for.
- PoolLiveness.PauseReturns, PoolLiveness.StopReturns and the results of `PoolProgress`: assume that every thread is scheduled again and again and that each call of the hasher returns.
- Stratum.IssuedIdsIncrease: does not model overflow of the `int` in `next_id_`.
- Data races in the clients: client calls are atomic, although shares are submitted from worker threads.
- EndToEnd.MoneroSharesPassPoolCheck: speaks of shares hashed with hasher, cache and publication of one epoch; `PoolKeys.KeyMixIff` says which workers can make others. A job without a seed is taken to be hashed by the pool under the seed in force.
- The `--share-diff` override in `on_job`, which replaces the job's target by `target_from_difficulty64`; the pool theorems hold for the job as published.
- Counting of share answers in the Monero client, which has the same shape as in the Stratum client.
- Exceptions thrown while a hasher is built, and by replies whose id is not an integer.
- RandomX, its contexts and its data set: a hasher is an arbitrary function of the key it was built for, the key of the cache, and the blob.
- JSON parsing and printing, sockets, name resolution, `send_all` and the metrics server: the clients start from parsed messages, and whether a socket call succeeded is an input.
- Detection of a lost connection: `read_line` does not close the socket at end of stream, so nothing is claimed.
- Configuration, command line, logging, benchmark, estimates, watchdog, keepalive timing, hash-rate averages and the stats file.
