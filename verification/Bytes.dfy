/**
  Bytes, and the two readings of a byte string as a number.

  A `Byte` is an integer below 256.  The source's `static_cast<uint8_t>(v >> 8 * i)`
  is `ByteAt(v, i)`, and a run of such stores is `ToLe` or `ToBe`.
 */
module Bytes {
  import opened Arith

  type Byte = x: int | 0 <= x < 256

  const TWO32: nat := 0x1_0000_0000
  const TWO64: nat := 0x1_0000_0000_0000_0000

  function Pow256(n: nat): (p: nat)
    ensures p > 0
  {
    if n == 0 then 1 else 256 * Pow256(n - 1)
  }

  /** The number whose least significant byte comes first. */
  function LeNat(s: seq<Byte>): nat {
    if s == [] then 0 else s[0] + 256 * LeNat(s[1..])
  }

  /** The number whose most significant byte comes first. */
  function BeNat(s: seq<Byte>): nat {
    if s == [] then 0 else 256 * BeNat(s[..|s| - 1]) + s[|s| - 1]
  }

  /** `static_cast<uint8_t>(v >> (8 * i))` for an unsigned `v`. */
  function ByteAt(v: nat, i: nat): Byte {
    v / Pow256(i) % 256
  }

  function ToLe(v: nat, n: nat): (s: seq<Byte>)
    ensures |s| == n
  {
    if n == 0 then [] else [v % 256] + ToLe(v / 256, n - 1)
  }

  function ToBe(v: nat, n: nat): (s: seq<Byte>)
    ensures |s| == n
  {
    if n == 0 then [] else ToBe(v / 256, n - 1) + [v % 256]
  }

  function Reverse<T>(s: seq<T>): (r: seq<T>)
    ensures |r| == |s|
    ensures forall i :: 0 <= i < |s| ==> r[i] == s[|s| - 1 - i]
  {
    seq(|s|, i requires 0 <= i < |s| => s[|s| - 1 - i])
  }

  function Zeros(n: nat): (z: seq<Byte>)
    ensures |z| == n
  {
    seq(n, _ => 0)
  }

  lemma Pow256Values()
    ensures Pow256(0) == 1
    ensures Pow256(1) == 0x100
    ensures Pow256(2) == 0x1_0000
    ensures Pow256(3) == 0x100_0000
    ensures Pow256(4) == TWO32
    ensures Pow256(8) == TWO64
  {
    assert Pow256(2) == 256 * Pow256(1);
    assert Pow256(3) == 256 * Pow256(2);
    assert Pow256(4) == 256 * Pow256(3);
    assert Pow256(5) == 256 * Pow256(4);
    assert Pow256(6) == 256 * Pow256(5);
    assert Pow256(7) == 256 * Pow256(6);
  }

  lemma {:induction false} Pow256Add(a: nat, b: nat)
    ensures Pow256(a + b) == Pow256(a) * Pow256(b)
  {
    if a != 0 {
      Pow256Add(a - 1, b);
      assert Pow256(a + b) == 256 * Pow256(a + b - 1);
      assert 256 * (Pow256(a - 1) * Pow256(b)) == (256 * Pow256(a - 1)) * Pow256(b);
    }
  }

  lemma {:induction false} ToLeAt(v: nat, n: nat, i: nat)
    requires i < n
    ensures ToLe(v, n)[i] == ByteAt(v, i)
  {
    if i != 0 {
      ToLeAt(v / 256, n - 1, i - 1);
      DivDiv(v, 256, Pow256(i - 1));
    }
  }

  lemma {:induction false} ToBeAt(v: nat, n: nat, i: nat)
    requires i < n
    ensures ToBe(v, n)[i] == ByteAt(v, n - 1 - i)
  {
    if i != n - 1 {
      ToBeAt(v / 256, n - 1, i);
      DivDiv(v, 256, Pow256(n - 2 - i));
    }
  }

  lemma {:induction false} LeNatBound(s: seq<Byte>)
    ensures LeNat(s) < Pow256(|s|)
  {
    if s != [] {
      LeNatBound(s[1..]);
    }
  }

  lemma {:induction false} BeNatBound(s: seq<Byte>)
    ensures BeNat(s) < Pow256(|s|)
  {
    if s != [] {
      BeNatBound(s[..|s| - 1]);
    }
  }

  lemma {:induction false} LeNatConcat(a: seq<Byte>, b: seq<Byte>)
    ensures LeNat(a + b) == LeNat(a) + Pow256(|a|) * LeNat(b)
  {
    if a == [] {
      assert a + b == b;
    } else {
      LeNatConcat(a[1..], b);
      assert (a + b)[1..] == a[1..] + b;
      assert 256 * (Pow256(|a| - 1) * LeNat(b)) == (256 * Pow256(|a| - 1)) * LeNat(b);
    }
  }

  lemma {:induction false} LeNatZeros(n: nat)
    ensures LeNat(Zeros(n)) == 0
  {
    if n != 0 {
      assert Zeros(n)[1..] == Zeros(n - 1);
      LeNatZeros(n - 1);
    }
  }

  /** Reading back a little-endian store gives the value modulo the width. */
  lemma {:induction false} LeNatToLe(v: nat, n: nat)
    ensures LeNat(ToLe(v, n)) == v % Pow256(n)
  {
    if n != 0 {
      var p := Pow256(n - 1);
      LeNatToLe(v / 256, n - 1);
      assert ToLe(v, n)[1..] == ToLe(v / 256, n - 1);
      ModSplit(v, 256, p);
    }
  }

  lemma LeNatToLeExact(v: nat, n: nat)
    requires v < Pow256(n)
    ensures LeNat(ToLe(v, n)) == v
  {
    LeNatToLe(v, n);
    DivUnique(v, Pow256(n), 0, v);
  }

  lemma {:induction false} BeNatToBe(v: nat, n: nat)
    ensures BeNat(ToBe(v, n)) == v % Pow256(n)
  {
    if n != 0 {
      var p := Pow256(n - 1);
      BeNatToBe(v / 256, n - 1);
      assert ToBe(v, n)[..n - 1] == ToBe(v / 256, n - 1);
      ModSplit(v, 256, p);
    }
  }

  /** A byte string is the little-endian store of its own value. */
  lemma {:induction false} ToLeLeNat(s: seq<Byte>)
    ensures ToLe(LeNat(s), |s|) == s
  {
    if s != [] {
      ToLeLeNat(s[1..]);
      DivUnique(LeNat(s), 256, LeNat(s[1..]), s[0]);
      assert s == [s[0]] + s[1..];
    }
  }

  lemma {:induction false} ToBeBeNat(s: seq<Byte>)
    ensures ToBe(BeNat(s), |s|) == s
  {
    if s != [] {
      ToBeBeNat(s[..|s| - 1]);
      DivUnique(BeNat(s), 256, BeNat(s[..|s| - 1]), s[|s| - 1]);
      assert s == s[..|s| - 1] + [s[|s| - 1]];
    }
  }

  /** At one length, the little-endian reading is injective. */
  lemma LeNatInjective(a: seq<Byte>, b: seq<Byte>)
    requires |a| == |b| && LeNat(a) == LeNat(b)
    ensures a == b
  {
    ToLeLeNat(a);
    ToLeLeNat(b);
  }

  lemma {:induction false} BeIsReversedLe(s: seq<Byte>)
    ensures BeNat(s) == LeNat(Reverse(s))
  {
    if s != [] {
      BeIsReversedLe(s[..|s| - 1]);
      assert Reverse(s)[1..] == Reverse(s[..|s| - 1]);
    }
  }

  /** The most significant differing byte decides the order. */
  lemma LeNatCompare(a: seq<Byte>, b: seq<Byte>, i: nat)
    requires |a| == |b| && i < |a|
    requires a[i + 1..] == b[i + 1..] && a[i] < b[i]
    ensures LeNat(a) < LeNat(b)
  {
    LeNatSplit(a, i);
    LeNatSplit(b, i);
    LeNatBound(a[..i]);
    var x, y := LeNat(a[i..]), LeNat(b[i..]);
    MulMono(x + 1, y, Pow256(i));
    MulDistrib(x, 1, Pow256(i));
  }

  lemma LeNatSplit(a: seq<Byte>, i: nat)
    requires i < |a|
    ensures LeNat(a) == LeNat(a[..i]) + LeNat(a[i..]) * Pow256(i)
    ensures LeNat(a[i..]) == a[i] + 256 * LeNat(a[i + 1..])
  {
    assert a == a[..i] + a[i..];
    LeNatConcat(a[..i], a[i..]);
    LeNatFirst(a, i);
  }

  lemma LeNatFirst(a: seq<Byte>, i: nat)
    requires i < |a|
    ensures LeNat(a[i..]) == a[i] + 256 * LeNat(a[i + 1..])
  {
    assert a[i..][1..] == a[i + 1..];
  }
}
