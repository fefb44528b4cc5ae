/** Hexadecimal text, as in src/util/hex.hpp. */
module Hex {
  import opened Bits
  import opened Bytes

  datatype Result<+T> = Ok(value: T) | Err(error: string)

  const DIGITS: string := "0123456789abcdef"

  /** -1 for a character that is not a hexadecimal digit. */
  function HexVal(c: char): (v: int)
    ensures -1 <= v < 16
  {
    if '0' <= c <= '9' then c as int - '0' as int
    else if 'a' <= c <= 'f' then c as int - 'a' as int + 10
    else if 'A' <= c <= 'F' then c as int - 'A' as int + 10
    else -1
  }

  /** The digits 0 to 9, and the letters a to f in either case, each with its value. */
  lemma HexValIff(c: char, v: nat)
    requires v < 16
    ensures HexVal(c) == v <==> c == "0123456789abcdef"[v] || c == "0123456789ABCDEF"[v]
  {
  }

  predicate IsHex(s: string) {
    |s| % 2 == 0 && forall i :: 0 <= i < |s| ==> HexVal(s[i]) >= 0
  }

  /** Text of even length over the 22 characters. */
  lemma IsHexIff(s: string)
    ensures IsHex(s) <==> |s| % 2 == 0 && forall i :: 0 <= i < |s| ==> s[i] in "0123456789abcdefABCDEF"
  {
    forall i | 0 <= i < |s|
      ensures HexVal(s[i]) >= 0 <==> s[i] in "0123456789abcdefABCDEF"
    {
      IsDigitIff(s[i]);
    }
  }

  lemma IsDigitIff(c: char)
    ensures HexVal(c) >= 0 <==> c in "0123456789abcdefABCDEF"
  {
    var all := "0123456789abcdefABCDEF";
    var v := HexVal(c);
    if v >= 0 {
      assert c == all[v] || c == all[v + 6];
    } else {
      forall i | 0 <= i < 22
        ensures all[i] != c
      {
      }
    }
  }

  /** The bytes that a hexadecimal string spells. */
  function Decoded(s: string): (b: seq<Byte>)
    requires IsHex(s)
    ensures |b| == |s| / 2
  {
    seq(|s| / 2, i requires 0 <= i < |s| / 2 => HexVal(s[2 * i]) * 16 + HexVal(s[2 * i + 1]))
  }

  function Encoded(b: seq<Byte>): (s: string)
    ensures |s| == 2 * |b|
  {
    seq(2 * |b|, i requires 0 <= i < 2 * |b| =>
                   if i % 2 == 0 then DIGITS[b[i / 2] / 16] else DIGITS[b[i / 2] % 16])
  }

  method ToHex(p: seq<Byte>) returns (s: string)
    ensures s == Encoded(p)
  {
    var a := new char[2 * |p|](_ => '0');
    for i := 0 to |p|
      invariant forall k :: 0 <= k < 2 * i ==> a[k] == Encoded(p)[k]
    {
      a[2 * i] := DIGITS[p[i] / 16];
      a[2 * i + 1] := DIGITS[p[i] % 16];
    }
    s := a[..];
  }

  method FromHex(s: string) returns (r: Result<seq<Byte>>)
    ensures r.Ok? <==> IsHex(s)
    ensures r.Ok? ==> r.value == Decoded(s)
  {
    if |s| % 2 != 0 {
      return Err("from_hex: odd length");
    }
    var out: seq<Byte> := [];
    var i := 0;
    while i < |s|
      invariant 0 <= i <= |s| && i % 2 == 0 && |out| == i / 2
      invariant forall k :: 0 <= k < i ==> HexVal(s[k]) >= 0
      invariant forall k :: 0 <= k < i / 2 ==> out[k] == HexVal(s[2 * k]) * 16 + HexVal(s[2 * k + 1])
    {
      var hi := HexVal(s[i]);
      var lo := HexVal(s[i + 1]);
      if hi < 0 || lo < 0 {
        return Err("from_hex: bad digit");
      }
      out := out + [hi * 16 + lo];
      i := i + 2;
    }
    return Ok(out);
  }

  method Be32FromHex(s: string) returns (r: Result<nat>)
    ensures r.Ok? <==> IsHex(s) && |s| == 8
    ensures r.Ok? ==> r.value == BeNat(Decoded(s)) < TWO32
  {
    var b := FromHex(s);
    if b.Err? {
      return Err(b.error);
    }
    var v := b.value;
    if |v| != 4 {
      return Err("be32_from_hex: need exactly 4 bytes");
    }
    Be32Value(v);
    JoinIsSum(v[0], v[1], v[2], v[3]);
    return Ok(JoinBytes(v[0], v[1], v[2], v[3]));
  }

  lemma Be32Value(v: seq<Byte>)
    requires |v| == 4
    ensures BeNat(v) == v[0] * 0x100_0000 + v[1] * 0x1_0000 + v[2] * 0x100 + v[3] < TWO32
  {
    assert v[..3][..2] == v[..2] && v[..2][..1] == v[..1] && v[..1][..0] == [];
    assert BeNat(v[..1]) == v[0];
    assert BeNat(v[..2]) == 256 * BeNat(v[..1]) + v[1];
    assert BeNat(v[..3]) == 256 * BeNat(v[..2]) + v[2];
  }

  lemma DigitRoundTrip(d: nat)
    requires d < 16
    ensures HexVal(DIGITS[d]) == d
  {
  }

  /** Characters `2 * j` and `2 * j + 1` of the text spell byte `j`. */
  lemma EncodedAt(b: seq<Byte>, j: nat)
    requires j < |b|
    ensures Encoded(b)[2 * j] == DIGITS[b[j] / 16] && Encoded(b)[2 * j + 1] == DIGITS[b[j] % 16]
  {
  }

  lemma DecodedAt(s: string, j: nat, v: Byte)
    requires IsHex(s) && j < |s| / 2 && HexVal(s[2 * j]) == v / 16 && HexVal(s[2 * j + 1]) == v % 16
    ensures Decoded(s)[j] == v
  {
  }

  lemma EncodedIsHex(b: seq<Byte>)
    ensures IsHex(Encoded(b))
  {
    var s := Encoded(b);
    forall i | 0 <= i < |s|
      ensures HexVal(s[i]) >= 0
    {
      EncodedAt(b, i / 2);
      DigitRoundTrip(b[i / 2] / 16);
      DigitRoundTrip(b[i / 2] % 16);
    }
  }

  /** Decoding undoes encoding. */
  lemma DecodeEncode(b: seq<Byte>)
    ensures IsHex(Encoded(b)) && Decoded(Encoded(b)) == b
  {
    EncodedIsHex(b);
    forall j | 0 <= j < |b|
      ensures Decoded(Encoded(b))[j] == b[j]
    {
      EncodedAt(b, j);
      DigitRoundTrip(b[j] / 16);
      DigitRoundTrip(b[j] % 16);
      DecodedAt(Encoded(b), j, b[j]);
    }
  }

  /** Lower case, on the letters that occur in hexadecimal. */
  function Lower(c: char): char {
    if 'A' <= c <= 'F' then (c as int + 32) as char else c
  }

  lemma ValIsLower(c: char)
    requires HexVal(c) >= 0
    ensures DIGITS[HexVal(c)] == Lower(c)
  {
  }

  lemma DecodedNibbles(s: string, j: nat)
    requires IsHex(s) && j < |s| / 2
    ensures Decoded(s)[j] / 16 == HexVal(s[2 * j]) && Decoded(s)[j] % 16 == HexVal(s[2 * j + 1])
  {
    Nibbles(HexVal(s[2 * j]), HexVal(s[2 * j + 1]));
  }

  lemma Nibbles(hi: nat, lo: nat)
    requires lo < 16
    ensures (hi * 16 + lo) / 16 == hi && (hi * 16 + lo) % 16 == lo
  {
  }

  lemma EncodeDecodeAt(s: string, b: seq<Byte>, j: nat)
    requires IsHex(s) && b == Decoded(s) && j < |b|
    ensures Encoded(b)[2 * j] == Lower(s[2 * j])
    ensures Encoded(b)[2 * j + 1] == Lower(s[2 * j + 1])
  {
    DecodedNibbles(s, j);
    SpelledLower(s, b, j);
  }

  lemma SpelledLower(s: string, b: seq<Byte>, j: nat)
    requires j < |b| && |s| == 2 * |b| && HexVal(s[2 * j]) == b[j] / 16 && HexVal(s[2 * j + 1]) == b[j] % 16
    ensures Encoded(b)[2 * j] == Lower(s[2 * j])
    ensures Encoded(b)[2 * j + 1] == Lower(s[2 * j + 1])
  {
    EncodedAt(b, j);
    ValIsLower(s[2 * j]);
    ValIsLower(s[2 * j + 1]);
  }

  lemma Half(i: nat, n: nat) returns (j: nat)
    requires i < 2 * n
    ensures j < n && (i == 2 * j || i == 2 * j + 1)
  {
    j := i / 2;
  }

  /** Encoding what was decoded gives the text back, in lower case. */
  lemma EncodeDecode(s: string)
    requires IsHex(s)
    ensures |Encoded(Decoded(s))| == |s|
    ensures forall i :: 0 <= i < |s| ==> Encoded(Decoded(s))[i] == Lower(s[i])
  {
    var b := Decoded(s);
    forall i | 0 <= i < |s|
      ensures Encoded(b)[i] == Lower(s[i])
    {
      var j := Half(i, |b|);
      EncodeDecodeAt(s, b, j);
    }
  }
}
