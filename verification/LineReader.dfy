/**
  Line framing, as in `TcpClient::read_line` of src/net/tcp_client.cpp.  What `recv` will
  deliver is a sequence of results: each is a chunk of bytes or a failure (end of stream,
  timeout or error, which the source does not tell apart).
 */
module LineReader {

  datatype Recv = Data(bytes: string) | Failed

  const GUARD: nat := 0x10_0000

  /** The bytes delivered by a sequence of `recv` results. */
  function Payload(src: seq<Recv>): string {
    if src == [] then "" else (if src[0].Data? then src[0].bytes else "") + Payload(src[1..])
  }

  /** The position of the first newline, or the length if there is none. */
  function FirstNewline(s: string): (n: nat)
    ensures n <= |s|
    ensures n < |s| ==> s[n] == '\n'
    ensures forall k :: 0 <= k < n ==> s[k] != '\n'
  {
    if s == "" || s[0] == '\n' then 0 else 1 + FirstNewline(s[1..])
  }

  predicate HasLine(s: string) {
    FirstNewline(s) < |s|
  }

  /** One trailing carriage return is dropped. */
  function Strip(line: string): string {
    if line != "" && line[|line| - 1] == '\r' then line[..|line| - 1] else line
  }

  /** The complete lines of a byte stream. */
  function Lines(s: string): seq<string>
    decreases |s|
  {
    var n := FirstNewline(s);
    if n == |s| then [] else [Strip(s[..n])] + Lines(s[n + 1..])
  }

  /** The stream stands at the start of a line. */
  predicate AtLineStart(s: string) {
    s == "" || s[|s| - 1] == '\n'
  }

  lemma FirstIs(t: string, n: nat)
    requires n < |t| && t[n] == '\n' && forall k :: 0 <= k < n ==> t[k] != '\n'
    ensures FirstNewline(t) == n
  {
    assert t[n] == '\n';
  }

  lemma FirstOfConcat(a: string, b: string)
    requires HasLine(a)
    ensures var n := FirstNewline(a);
            && FirstNewline(a + b) == n
            && (a + b)[..n] == a[..n] && (a + b)[n + 1..] == a[n + 1..] + b
  {
    FirstIs(a + b, FirstNewline(a));
  }

  /** What follows a complete stretch of lines is split on its own. */
  lemma {:induction false} LinesConcat(a: string, b: string)
    requires AtLineStart(a)
    ensures Lines(a + b) == Lines(a) + Lines(b)
    decreases |a|
  {
    if a == "" {
      assert a + b == b;
    } else {
      var n := FirstNewline(a);
      assert n < |a| by {
        assert a[|a| - 1] == '\n';
      }
      FirstOfConcat(a, b);
      LinesConcat(a[n + 1..], b);
    }
  }

  lemma OneLine(s: string)
    requires HasLine(s)
    ensures var n := FirstNewline(s);
            AtLineStart(s[..n + 1]) && Lines(s[..n + 1]) == [Strip(s[..n])]
  {
    var n := FirstNewline(s);
    var t := s[..n + 1];
    FirstIs(t, n);
    assert t[..n] == s[..n] && t[n + 1..] == "";
    assert Lines("") == [];
  }

  /** Lines sent one after another, each with its line end. */
  function Sent(lines: seq<string>, end: string): string {
    if lines == [] then "" else lines[0] + end + Sent(lines[1..], end)
  }

  predicate NoNewline(s: string) {
    forall k :: 0 <= k < |s| ==> s[k] != '\n'
  }

  /** A stream of lines ended by "\r\n" is split into those very lines. */
  lemma {:induction false} LinesOfCrLf(lines: seq<string>)
    requires forall i :: 0 <= i < |lines| ==> NoNewline(lines[i])
    ensures Lines(Sent(lines, "\r\n")) == lines
  {
    if lines != [] {
      var s := Sent(lines, "\r\n");
      var n := |lines[0]| + 1;
      assert s == lines[0] + "\r\n" + Sent(lines[1..], "\r\n");
      FirstIs(s, n);
      assert s[..n] == lines[0] + "\r" && s[n + 1..] == Sent(lines[1..], "\r\n");
      assert Strip(s[..n]) == lines[0];
      LinesOfCrLf(lines[1..]);
    }
  }

  /** And so is one of lines ended by "\n", if none of them ends with "\r". */
  lemma {:induction false} LinesOfLf(lines: seq<string>)
    requires forall i :: 0 <= i < |lines| ==> NoNewline(lines[i])
    requires forall i :: 0 <= i < |lines| && lines[i] != "" ==> lines[i][|lines[i]| - 1] != '\r'
    ensures Lines(Sent(lines, "\n")) == lines
  {
    if lines != [] {
      var s := Sent(lines, "\n");
      var n := |lines[0]|;
      assert s == lines[0] + "\n" + Sent(lines[1..], "\n");
      FirstIs(s, n);
      assert s[..n] == lines[0] && s[n + 1..] == Sent(lines[1..], "\n");
      LinesOfLf(lines[1..]);
    }
  }

  lemma Appended(a: string, raw: string, b: string)
    requires AtLineStart(raw) && raw != ""
    ensures AtLineStart(a + raw) && a + raw + b == a + (raw + b)
  {
  }

  class TcpClient {
    var open: bool
    var rx: string

    /** Within the connection: bytes received, bytes of the lines already taken, and those lines. */
    ghost var received: string
    ghost var consumed: string
    ghost var returned: seq<string>

    ghost predicate Valid()
      reads this
    {
      && consumed + rx == received
      && AtLineStart(consumed)
      && returned == Lines(consumed)
    }

    constructor ()
      ensures Valid() && !open && rx == "" && received == ""
    {
      open, rx := false, "";
      received, consumed, returned := "", "", [];
    }

    /** A successful `connect`, which closes any earlier connection first. */
    method Connect()
      modifies this
      ensures Valid() && open && rx == "" && received == "" && returned == []
    {
      Close();
      open := true;
    }

    method Close()
      modifies this
      ensures Valid() && !open && rx == "" && received == "" && returned == []
    {
      open, rx := false, "";
      received, consumed, returned := "", "", [];
    }

    /** Lines 126-130: take the line that ends at the first newline. */
    method TakeLine() returns (line: string)
      requires Valid() && HasLine(rx)
      modifies this
      ensures Valid() && open == old(open) && received == old(received) && |rx| < |old(rx)|
      ensures returned == old(returned) + [line]
    {
      var nl := FirstNewline(rx);
      line := rx[..nl];
      if line != "" && line[|line| - 1] == '\r' {
        line := line[..|line| - 1];
      }
      ghost var raw := rx[..nl + 1];
      OneLine(rx);
      LinesConcat(consumed, raw);
      Appended(consumed, raw, rx[nl + 1..]);
      assert raw + rx[nl + 1..] == rx;
      consumed := consumed + raw;
      returned := returned + [line];
      rx := rx[nl + 1..];
    }

    /** Line 140. */
    method Grow(bytes: string)
      requires Valid()
      modifies this
      ensures Valid() && open == old(open) && rx == old(rx) + bytes
      ensures received == old(received) + bytes && returned == old(returned)
    {
      rx := rx + bytes;
      received := received + bytes;
      assert consumed + rx == received;
    }

    /** Lines 137-141: one result of `recv`; `more` unless it failed, was empty, or the guard fired. */
    method TakeChunk(r: Recv) returns (more: bool)
      requires Valid()
      modifies this
      ensures Valid() && open == old(open) && returned == old(returned)
      ensures var chunk := if r.Data? then r.bytes else "";
              && rx == old(rx) + chunk && received == old(received) + chunk
              && (more <==> chunk != "" && |rx| <= 0x10_0000)
    {
      if r.Failed? || r.bytes == "" {
        return false;
      }
      Grow(r.bytes);
      return |rx| <= GUARD;
    }

    /**
      `out` is the line on success.  On failure nothing is lost: either every complete line
      received was already returned, or the size guard fired and the bytes stay in `rx`.
     */
    method ReadLine(src: seq<Recv>) returns (ok: bool, out: string, rest: seq<Recv>)
      requires Valid()
      modifies this
      ensures Valid() && open == old(open)
      ensures |rest| <= |src| && rest == src[|src| - |rest|..]
      ensures received == old(received) + Payload(src[..|src| - |rest|])
      ensures ok ==> returned == old(returned) + [out] && (rest == src ==> |rx| < |old(rx)|)
      ensures !ok ==> returned == old(returned)
      ensures !ok && open ==> (!HasLine(rx) || |rx| > 0x10_0000) && (src == [] || |rest| < |src|)
      ensures open && HasLine(old(rx)) ==> ok && rest == src
    {
      ok, out, rest := false, "", src;
      assert src[..0] == [] && src[|src|..] == [];
      if !open {
        return;
      }
      var k := 0;
      while true
        invariant Valid() && open && returned == old(returned) && !ok
        invariant 0 <= k <= |src| && rest == src[k..]
        invariant received == old(received) + Payload(src[..k])
        invariant if k == 0 then rx == old(rx) else !HasLine(old(rx))
        decreases |src| - k
      {
        if HasLine(rx) {
          out := TakeLine();
          ok := true;
          return;
        }
        if rest == [] {
          return;
        }
        var more := TakeChunk(rest[0]);
        PayloadNext(src, k);
        k := k + 1;
        rest := rest[1..];
        if !more {
          return;
        }
      }
    }
  }

  lemma {:induction false} PayloadNext(src: seq<Recv>, k: nat)
    requires k < |src|
    ensures Payload(src[..k + 1]) == Payload(src[..k]) + (if src[k].Data? then src[k].bytes else "")
    decreases k
  {
    if k == 0 {
      assert src[..1] == [src[0]] && src[..0] == [];
      assert Payload([src[0]][1..]) == "";
    } else {
      assert src[..k + 1][1..] == src[1..][..k] && src[..k][1..] == src[1..][..k - 1];
      PayloadNext(src[1..], k - 1);
    }
  }

  /**
    The lines returned so far are a prefix of the stream split at newlines, and all of it
    when no newline is left in the buffer.
   */
  lemma ReturnedIsPrefix(consumed: string, rx: string)
    requires AtLineStart(consumed)
    ensures Lines(consumed) <= Lines(consumed + rx)
    ensures !HasLine(rx) ==> Lines(consumed) == Lines(consumed + rx)
  {
    LinesConcat(consumed, rx);
  }

  /**
    A caller that keeps reading gets exactly the lines of the stream, whatever the chunks,
    and wherever the failures and the size guard fall.
   */
  method ReadStream(src: seq<Recv>) returns (lines: seq<string>)
    ensures lines == Lines(Payload(src))
  {
    var c := new TcpClient();
    c.Connect();
    var rest := src;
    ghost var k := 0;
    lines := [];
    assert src[..0] == [];
    while rest != [] || HasLine(c.rx)
      invariant c.Valid() && fresh(c) && c.open && lines == c.returned
      invariant 0 <= k <= |src| && rest == src[k..]
      invariant c.received == Payload(src[..k])
      decreases |rest|, |c.rx|
    {
      var ok, line;
      ok, line, rest := c.ReadLine(rest);
      ghost var n := |src| - |rest|;
      Resume(src, k, n);
      k := n;
      if ok {
        lines := lines + [line];
      }
    }
    assert k == |src| && src[..k] == src;
    ReturnedIsPrefix(c.consumed, c.rx);
  }

  lemma Resume(src: seq<Recv>, k: nat, n: nat)
    requires k <= n <= |src|
    ensures Payload(src[..k]) + Payload(src[k..][..n - k]) == Payload(src[..n])
    ensures src[k..][n - k..] == src[n..]
    decreases n - k
  {
    if n == k {
      assert src[k..][..0] == [];
    } else {
      Resume(src, k, n - 1);
      PayloadNext(src, n - 1);
      PayloadNext(src[k..], n - 1 - k);
    }
  }
}
