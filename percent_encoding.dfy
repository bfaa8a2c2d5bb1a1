/**
 * Percent-encoding (section 2.1 of RFC 3986) with only ASCII letters and digits
 * left unescaped: `addingPercentEncoding(withAllowedCharacters: .alphanumerics)`
 * as the uploader applies it to the SQL statement.  Every other character is
 * replaced by `%XX` for each byte of its UTF-8 encoding, with upper-case hex digits.
 */
module PercentEncoding {
  import opened Wrappers
  import Utf8

  predicate IsAlphanumeric(c: char) {
    'A' <= c <= 'Z' || 'a' <= c <= 'z' || '0' <= c <= '9'
  }

  predicate IsHexDigit(c: char) {
    '0' <= c <= '9' || 'A' <= c <= 'F' || 'a' <= c <= 'f'
  }

  function HexDigit(d: nat): (c: char)
    requires d < 16
    ensures IsHexDigit(c) && IsAlphanumeric(c)
  {
    if d < 10 then ('0' as int + d) as char else ('A' as int + d - 10) as char
  }

  /** The value of a hex digit, either case (RFC 3986 treats them as equivalent). */
  function HexValue(c: char): (d: nat)
    requires IsHexDigit(c)
    ensures d < 16
  {
    if '0' <= c <= '9' then c as int - '0' as int
    else if 'A' <= c <= 'F' then c as int - 'A' as int + 10
    else c as int - 'a' as int + 10
  }

  /** `%` followed by the two hex digits of one byte. */
  function Triplet(b: Utf8.Byte): string {
    ['%', HexDigit(b / 16), HexDigit(b % 16)]
  }

  function Triplets(bs: seq<Utf8.Byte>): (r: string)
    ensures |r| == 3 * |bs|
    decreases |bs|
  {
    if bs == [] then [] else Triplet(bs[0]) + Triplets(bs[1..])
  }

  /** One character of the statement, escaped unless it is alphanumeric. */
  function EncodeChar(c: char): (r: string)
    ensures IsAlphanumeric(c) <==> r == [c]
    ensures !IsAlphanumeric(c) ==> |r| == 3 * |Utf8.EncodeScalar(c)| && r[0] == '%'
  {
    if IsAlphanumeric(c) then [c] else Triplets(Utf8.EncodeScalar(c))
  }

  predicate InEncodedAlphabet(s: string) {
    forall i | 0 <= i < |s| :: IsAlphanumeric(s[i]) || s[i] == '%'
  }

  predicate AllAlphanumeric(s: string) {
    forall i | 0 <= i < |s| :: IsAlphanumeric(s[i])
  }

  lemma {:induction false} TripletsAlphabet(bs: seq<Utf8.Byte>)
    ensures InEncodedAlphabet(Triplets(bs))
    decreases |bs|
  {
    if bs != [] {
      TripletsAlphabet(bs[1..]);
      var t, rest := Triplet(bs[0]), Triplets(bs[1..]);
      assert forall i | 0 <= i < |rest| :: (t + rest)[3 + i] == rest[i];
    }
  }

  /** Position `j` of the byte sequence becomes the triplet at `3 * j`: `%` and the byte's two hex digits. */
  lemma {:induction false} TripletsAt(bs: seq<Utf8.Byte>, j: nat)
    requires j < |bs|
    ensures var r := Triplets(bs);
      && r[3 * j] == '%' && IsHexDigit(r[3 * j + 1]) && IsHexDigit(r[3 * j + 2])
      && 16 * HexValue(r[3 * j + 1]) + HexValue(r[3 * j + 2]) == bs[j]
    decreases |bs|
  {
    var t, rest := Triplet(bs[0]), Triplets(bs[1..]);
    if j == 0 {
      HexRoundTrip(bs[0]);
    } else {
      TripletsAt(bs[1..], j - 1);
      assert (t + rest)[3 * j + 0] == rest[3 * (j - 1) + 0];
      assert (t + rest)[3 * j + 1] == rest[3 * (j - 1) + 1];
      assert (t + rest)[3 * j + 2] == rest[3 * (j - 1) + 2];
    }
  }

  /** A character that is not alphanumeric becomes, for each byte of its UTF-8 encoding, `%` and that byte in hex. */
  lemma EscapedChar(c: char, j: nat)
    requires !IsAlphanumeric(c) && j < |Utf8.EncodeScalar(c)|
    ensures var r := EncodeChar(c);
      && |r| == 3 * |Utf8.EncodeScalar(c)|
      && r[3 * j] == '%' && IsHexDigit(r[3 * j + 1]) && IsHexDigit(r[3 * j + 2])
      && 16 * HexValue(r[3 * j + 1]) + HexValue(r[3 * j + 2]) == Utf8.EncodeScalar(c)[j]
  {
    TripletsAt(Utf8.EncodeScalar(c), j);
  }

  /** The encoded statement: only letters, digits and `%` appear, and an all-alphanumeric statement is unchanged. */
  function Encode(s: string): (r: string)
    ensures InEncodedAlphabet(r)
    ensures AllAlphanumeric(s) ==> r == s
    decreases |s|
  {
    if s == [] then []
    else
      var head, tail := EncodeChar(s[0]), Encode(s[1..]);
      assert InEncodedAlphabet(head) by {
        if !IsAlphanumeric(s[0]) { TripletsAlphabet(Utf8.EncodeScalar(s[0])); }
      }
      assert forall i | 0 <= i < |tail| :: (head + tail)[|head| + i] == tail[i];
      assert AllAlphanumeric(s) ==> AllAlphanumeric(s[1..]) && head + tail == [s[0]] + s[1..];
      head + tail
  }

  /** Percent-decoding to bytes, accepting exactly the alphabet `Encode` produces. */
  function Decode(s: string): Option<seq<Utf8.Byte>>
    decreases |s|
  {
    if s == [] then Some([])
    else if s[0] == '%' then
      if |s| >= 3 && IsHexDigit(s[1]) && IsHexDigit(s[2]) then
        match Decode(s[3..])
        case None => None
        case Some(rest) => Some([16 * HexValue(s[1]) + HexValue(s[2])] + rest)
      else None
    else if IsAlphanumeric(s[0]) then
      match Decode(s[1..])
      case None => None
      case Some(rest) => Some([s[0] as int] + rest)
    else None
  }

  function Prepend(bs: seq<Utf8.Byte>, o: Option<seq<Utf8.Byte>>): Option<seq<Utf8.Byte>> {
    match o
    case None => None
    case Some(rest) => Some(bs + rest)
  }

  /** The two hex digits of a byte read back as that byte. */
  lemma HexRoundTrip(b: Utf8.Byte)
    ensures 16 * HexValue(HexDigit(b / 16)) + HexValue(HexDigit(b % 16)) == b
  {
  }

  /** One `%XX` triplet decodes to its byte. */
  lemma DecodeTriplet(b: Utf8.Byte, rest: string)
    ensures Decode(Triplet(b) + rest) == Prepend([b], Decode(rest))
  {
    var s := Triplet(b) + rest;
    assert s[0] == '%' && s[1] == HexDigit(b / 16) && s[2] == HexDigit(b % 16);
    assert s[3..] == rest;
    HexRoundTrip(b);
  }

  lemma {:induction false} DecodeTriplets(bs: seq<Utf8.Byte>, rest: string)
    ensures Decode(Triplets(bs) + rest) == Prepend(bs, Decode(rest))
    decreases |bs|
  {
    if bs == [] {
      assert Triplets(bs) + rest == rest;
      match Decode(rest) {
        case None =>
        case Some(t) => assert bs + t == t;
      }
    } else {
      var b := bs[0];
      assert Triplets(bs) + rest == Triplet(b) + (Triplets(bs[1..]) + rest);
      DecodeTriplet(b, Triplets(bs[1..]) + rest);
      DecodeTriplets(bs[1..], rest);
      match Decode(rest) {
        case None =>
        case Some(t) => assert [b] + (bs[1..] + t) == bs + t;
      }
    }
  }

  /** Percent-decoding the encoded field gives back the UTF-8 bytes of the statement. */
  lemma {:induction false} DecodeEncode(s: string)
    ensures Decode(Encode(s)) == Some(Utf8.Encode(s))
    decreases |s|
  {
    if s != [] {
      var c, tail := s[0], Encode(s[1..]);
      DecodeEncode(s[1..]);
      if IsAlphanumeric(c) {
        assert ([c] + tail)[1..] == tail;
      } else {
        DecodeTriplets(Utf8.EncodeScalar(c), tail);
      }
    }
  }

  /**
   * `addingPercentEncoding`: Foundation answers `nil` only for text that is not a
   * sequence of Unicode scalar values, which a Dafny string always is.
   */
  function AddingPercentEncoding(s: string): (r: Option<string>)
    ensures r.Some? && InEncodedAlphabet(r.value)
    ensures Decode(r.value) == Some(Utf8.Encode(s))
  {
    DecodeEncode(s);
    Some(Encode(s))
  }

  /** A receiver that percent-decodes the field and reads it as UTF-8 recovers the statement exactly. */
  lemma RecoverStatement(s: string)
    ensures Decode(Encode(s)).Some?
    ensures Utf8.Decode(Decode(Encode(s)).value) == Some(s)
  {
    DecodeEncode(s);
    Utf8.DecodeEncode(s);
  }

  /** Encoding works character by character, so it distributes over concatenation. */
  lemma {:induction false} EncodeAppend(a: string, b: string)
    ensures Encode(a + b) == Encode(a) + Encode(b)
    decreases |a|
  {
    if a == [] {
      assert a + b == b;
    } else {
      assert (a + b)[0] == a[0] && (a + b)[1..] == a[1..] + b;
      EncodeAppend(a[1..], b);
    }
  }

  lemma EncodeSingle(c: char)
    ensures Encode([c]) == EncodeChar(c)
  {
    assert [c][1..] == [];
  }

  lemma EncodeSpace()
    ensures Encode(" ") == "%20"
  {
    EncodeSingle(' ');
    assert Utf8.EncodeScalar(' ') == [0x20];
    assert Triplets([0x20]) == Triplet(0x20) + Triplets([]);
    assert HexDigit(2) == '2' && HexDigit(0) == '0';
  }

  /** Two alphanumeric words separated by a space: only the space is escaped. */
  lemma EncodeSpaced(a: string, b: string)
    requires AllAlphanumeric(a) && AllAlphanumeric(b)
    ensures Encode(a + " " + b) == a + "%20" + b
  {
    EncodeSpace();
    EncodeAppend(a + " ", b);
    EncodeAppend(a, " ");
  }

  /** Example: `SELECT 1` encodes to `SELECT%201`. */
  lemma EncodeSelectOne(statement: string)
    requires statement == "SELECT 1"
    ensures Encode(statement) == "SELECT%201"
  {
    var select, one := "SELECT", "1";
    assert AllAlphanumeric(select) && AllAlphanumeric(one);
    assert statement == select + " " + one;
    EncodeSpaced(select, one);
  }
}
