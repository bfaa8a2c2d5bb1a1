/**
 * UTF-8 (RFC 3629) over Unicode scalar values, which is what a Dafny `char` is.
 * The uploader turns every POST body into bytes with `data(using: .utf8)`;
 * `Encode` models that conversion and `Decode` is its inverse, used to state
 * that the bytes on the wire carry exactly the body text.
 */
module Utf8 {
  import opened Wrappers

  type Byte = x: int | 0 <= x < 0x100

  predicate IsScalarValue(v: int) {
    0 <= v < 0xD800 || 0xE000 <= v < 0x11_0000
  }

  predicate IsContinuation(b: Byte) {
    0x80 <= b < 0xC0
  }

  /** The number of bytes of a sequence whose first byte is `lead`; 0 when `lead` cannot start one. */
  function Width(lead: Byte): nat {
    if lead < 0x80 then 1
    else if lead < 0xC0 then 0
    else if lead < 0xE0 then 2
    else if lead < 0xF0 then 3
    else if lead < 0xF8 then 4
    else 0
  }

  /** The bytes of one scalar value, shortest form. */
  function EncodeScalar(c: char): (r: seq<Byte>)
    ensures 1 <= |r| <= 4
    ensures |r| == 1 <==> c as int < 0x80
    ensures |r| == 1 ==> r[0] == c as int
  {
    var v := c as int;
    if v < 0x80 then [v]
    else if v < 0x800 then [0xC0 + v / 0x40, 0x80 + v % 0x40]
    else if v < 0x1_0000 then [0xE0 + v / 0x1000, 0x80 + (v / 0x40) % 0x40, 0x80 + v % 0x40]
    else [0xF0 + v / 0x4_0000, 0x80 + (v / 0x1000) % 0x40, 0x80 + (v / 0x40) % 0x40, 0x80 + v % 0x40]
  }

  /** The scalar value a well-framed sequence of 1 to 4 bytes stands for. */
  function ScalarOf(bs: seq<Byte>): int
    requires 1 <= |bs| <= 4
  {
    var b := seq(|bs|, k requires 0 <= k < |bs| => bs[k] as int);
    if |b| == 1 then b[0]
    else if |b| == 2 then (b[0] - 0xC0) * 0x40 + (b[1] - 0x80)
    else if |b| == 3 then (b[0] - 0xE0) * 0x1000 + (b[1] - 0x80) * 0x40 + (b[2] - 0x80)
    else (b[0] - 0xF0) * 0x4_0000 + (b[1] - 0x80) * 0x1000 + (b[2] - 0x80) * 0x40 + (b[3] - 0x80)
  }

  /** `s.data(using: .utf8)`: the concatenated encodings of its characters. */
  function Encode(s: string): (r: seq<Byte>)
    ensures |s| <= |r| <= 4 * |s|
    ensures IsAscii(s) ==> |r| == |s|
    decreases |s|
  {
    if s == [] then [] else EncodeScalar(s[0]) + Encode(s[1..])
  }

  /** Decodes bytes to text; `None` when they are not a sequence of well-framed scalar values. */
  function Decode(bs: seq<Byte>): Option<string>
    decreases |bs|
  {
    if bs == [] then Some([])
    else
      var n := Width(bs[0]);
      if n == 0 || |bs| < n || exists k | 1 <= k < n :: !IsContinuation(bs[k]) then None
      else if !IsScalarValue(ScalarOf(bs[..n])) then None
      else
        match Decode(bs[n..])
        case None => None
        case Some(rest) => Some([ScalarOf(bs[..n]) as char] + rest)
  }

  lemma TwoByteRoundTrip(v: int)
    requires 0x80 <= v < 0x800
    ensures var r: seq<Byte> := [0xC0 + v / 0x40, 0x80 + v % 0x40];
      Width(r[0]) == 2 && IsContinuation(r[1]) && ScalarOf(r) == v
  {
    assert v == (v / 0x40) * 0x40 + v % 0x40;
  }

  lemma ThreeByteRoundTrip(v: int)
    requires 0x800 <= v < 0x1_0000
    ensures var r: seq<Byte> := [0xE0 + v / 0x1000, 0x80 + (v / 0x40) % 0x40, 0x80 + v % 0x40];
      Width(r[0]) == 3 && IsContinuation(r[1]) && IsContinuation(r[2]) && ScalarOf(r) == v
  {
    var hi := v / 0x40;
    assert hi == (hi / 0x40) * 0x40 + hi % 0x40;
    assert hi / 0x40 == v / 0x1000;
    assert v == hi * 0x40 + v % 0x40;
  }

  lemma FourByteRoundTrip(v: int)
    requires 0x1_0000 <= v < 0x11_0000
    ensures var r: seq<Byte> :=
        [0xF0 + v / 0x4_0000, 0x80 + (v / 0x1000) % 0x40, 0x80 + (v / 0x40) % 0x40, 0x80 + v % 0x40];
      && Width(r[0]) == 4 && IsContinuation(r[1]) && IsContinuation(r[2]) && IsContinuation(r[3])
      && ScalarOf(r) == v
  {
    var hi, mid := v / 0x40, v / 0x1000;
    assert mid == (mid / 0x40) * 0x40 + mid % 0x40;
    assert mid / 0x40 == v / 0x4_0000;
    assert hi / 0x40 == mid;
    assert hi == mid * 0x40 + hi % 0x40;
    assert v == hi * 0x40 + v % 0x40;
  }

  /** The encoding of one character is framed by its lead byte and stands for that character. */
  lemma ScalarRoundTrip(c: char)
    ensures var r := EncodeScalar(c);
      && Width(r[0]) == |r|
      && (forall k | 1 <= k < |r| :: IsContinuation(r[k]))
      && ScalarOf(r) == c as int
  {
    var v := c as int;
    if v < 0x80 {
    } else if v < 0x800 {
      TwoByteRoundTrip(v);
    } else if v < 0x1_0000 {
      ThreeByteRoundTrip(v);
    } else {
      FourByteRoundTrip(v);
    }
  }

  lemma {:induction false} DecodeEncodeScalar(c: char, rest: seq<Byte>)
    ensures Decode(EncodeScalar(c) + rest) ==
      match Decode(rest) case None => None case Some(t) => Some([c] + t)
  {
    var r := EncodeScalar(c);
    var bs := r + rest;
    ScalarRoundTrip(c);
    assert bs[0] == r[0];
    assert bs[..|r|] == r;
    assert bs[|r|..] == rest;
    assert forall k | 1 <= k < |r| :: bs[k] == r[k];
  }

  /** The bytes of a body decode back to that body. */
  lemma {:induction false} DecodeEncode(s: string)
    ensures Decode(Encode(s)) == Some(s)
    decreases |s|
  {
    if s != [] {
      DecodeEncode(s[1..]);
      DecodeEncodeScalar(s[0], Encode(s[1..]));
      assert [s[0]] + s[1..] == s;
    }
  }

  predicate IsAscii(s: string) {
    forall i | 0 <= i < |s| :: s[i] as int < 0x80
  }

  /** For ASCII text the byte count is the character count, and each byte is the character's code. */
  lemma {:induction false} EncodeAscii(s: string)
    requires IsAscii(s)
    ensures |Encode(s)| == |s|
    ensures forall i | 0 <= i < |s| :: Encode(s)[i] == s[i] as int
    decreases |s|
  {
    if s != [] {
      EncodeAscii(s[1..]);
      assert forall i | 1 <= i < |s| :: Encode(s)[i] == Encode(s[1..])[i - 1];
    }
  }
}
