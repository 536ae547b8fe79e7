/**
 * Base16 as Python's `bytes.hex()` writes it: two lowercase digits per byte, high nibble first
 * (the Base16 alphabet of section 8 of RFC 4648, in lower case). `Decode` reads either case.
 */
module Hex {
  import opened Common

  const Digits: string := "0123456789abcdef"

  predicate IsLowerHexDigit(c: char)
  {
    '0' <= c <= '9' || 'a' <= c <= 'f'
  }

  /** Every character is a lowercase hex digit and the length is even: what `Encode` produces. */
  predicate IsLowerHex(s: string)
  {
    |s| % 2 == 0 && forall i :: 0 <= i < |s| ==> IsLowerHexDigit(s[i])
  }

  function DigitChar(n: int): (c: char)
    requires 0 <= n < 16
    ensures IsLowerHexDigit(c)
  {
    Digits[n]
  }

  /** The value of one hex digit, either case; `None` for any other character. */
  function DigitValue(c: char): (r: Option<int>)
    ensures r.Some? ==> 0 <= r.value < 16
  {
    if '0' <= c <= '9' then Some(c as int - '0' as int)
    else if 'a' <= c <= 'f' then Some(c as int - 'a' as int + 10)
    else if 'A' <= c <= 'F' then Some(c as int - 'A' as int + 10)
    else None
  }

  lemma DigitRoundTrip(n: int)
    requires 0 <= n < 16
    ensures DigitValue(DigitChar(n)) == Some(n)
  {
  }

  lemma DigitCharOfValue(c: char)
    requires IsLowerHexDigit(c)
    ensures DigitValue(c).Some? && DigitChar(DigitValue(c).value) == c
  {
  }

  function EncodeByte(b: byte): string
  {
    [DigitChar(b / 16), DigitChar(b % 16)]
  }

  /** `bytes.hex()`. */
  function Encode(bs: seq<byte>): (s: string)
    ensures |s| == 2 * |bs|
    ensures IsLowerHex(s)
    decreases |bs|
  {
    if bs == [] then "" else EncodeByte(bs[0]) + Encode(bs[1..])
  }

  /** `bytes.fromhex(s)` for a string without spaces: `None` where Python raises `ValueError`. */
  function Decode(s: string): (r: Option<seq<byte>>)
    ensures r.Some? ==> 2 * |r.value| == |s|
    decreases |s|
  {
    if s == "" then Some([])
    else if |s| == 1 then None
    else match (DigitValue(s[0]), DigitValue(s[1]), Decode(s[2..]))
      case (Some(hi), Some(lo), Some(rest)) => Some([16 * hi + lo] + rest)
      case _ => None
  }

  /** The byte with high nibble `hi` and low nibble `lo`; its nibbles are read back from it. */
  lemma Nibbles(hi: int, lo: int) returns (b: byte)
    requires 0 <= hi < 16 && 0 <= lo < 16
    ensures b == 16 * hi + lo && b / 16 == hi && b % 16 == lo
  {
    b := 16 * hi + lo;
  }

  lemma ByteNibbles(b: byte)
    ensures 0 <= b / 16 < 16 && 0 <= b % 16 < 16 && 16 * (b / 16) + b % 16 == b
  {
  }

  /** Decoding a string that starts with two digits. */
  lemma DecodeCons(s: string, b: byte, rest: seq<byte>)
    requires |s| >= 2 && DigitValue(s[0]).Some? && DigitValue(s[1]).Some? && Decode(s[2..]) == Some(rest)
    requires b == 16 * DigitValue(s[0]).value + DigitValue(s[1]).value
    ensures Decode(s) == Some([b] + rest)
  {
  }

  /** The encoding of a non-empty byte string starts with the two digits of its first byte. */
  lemma EncodeCons(bs: seq<byte>)
    requires bs != []
    ensures var s := Encode(bs);
      |s| >= 2 && s[0] == DigitChar(bs[0] / 16) && s[1] == DigitChar(bs[0] % 16) && s[2..] == Encode(bs[1..])
  {
    var t := Encode(bs[1..]);
    assert Encode(bs) == [DigitChar(bs[0] / 16), DigitChar(bs[0] % 16)] + t;
  }

  /** Decoding the encoding of any byte string gives the bytes back. */
  lemma {:induction false} DecodeEncode(bs: seq<byte>)
    ensures Decode(Encode(bs)) == Some(bs)
    decreases |bs|
  {
    if bs != [] {
      DecodeEncode(bs[1..]);
      DecodeEncodeStep(bs);
    }
  }

  lemma DecodeEncodeStep(bs: seq<byte>)
    requires bs != [] && Decode(Encode(bs[1..])) == Some(bs[1..])
    ensures Decode(Encode(bs)) == Some(bs)
  {
    var s := Encode(bs);
    EncodeCons(bs);
    ByteNibbles(bs[0]);
    DigitRoundTrip(bs[0] / 16);
    DigitRoundTrip(bs[0] % 16);
    DecodeCons(s, bs[0], bs[1..]);
    assert [bs[0]] + bs[1..] == bs;
  }

  /** Encoding is one-to-one: distinct signatures have distinct hex strings. */
  lemma EncodeInjective(a: seq<byte>, b: seq<byte>)
    requires Encode(a) == Encode(b)
    ensures a == b
  {
    DecodeEncode(a);
    DecodeEncode(b);
  }

  /** Every lowercase hex string is the encoding of what it decodes to. */
  lemma {:induction false} EncodeDecode(s: string)
    requires IsLowerHex(s)
    ensures Decode(s).Some? && Encode(Decode(s).value) == s
    decreases |s|
  {
    if s != "" {
      var tail := s[2..];
      assert IsLowerHex(tail) by {
        assert forall i :: 0 <= i < |tail| ==> tail[i] == s[i + 2];
      }
      EncodeDecode(tail);
      EncodeDecodeStep(s);
    }
  }

  lemma EncodeDecodeStep(s: string)
    requires IsLowerHex(s) && s != ""
    requires Decode(s[2..]).Some? && Encode(Decode(s[2..]).value) == s[2..]
    ensures Decode(s).Some? && Encode(Decode(s).value) == s
  {
    DigitCharOfValue(s[0]);
    DigitCharOfValue(s[1]);
    var hi, lo := DigitValue(s[0]).value, DigitValue(s[1]).value;
    var rest := Decode(s[2..]).value;
    var b := Nibbles(hi, lo);
    DecodeCons(s, b, rest);
    EncodePrepend(b, rest);
    var t := Encode(rest);
    assert t == s[2..];
    assert Encode([b] + rest) == [s[0], s[1]] + t;
    assert [s[0], s[1]] + s[2..] == s;
  }

  lemma EncodePrepend(b: byte, rest: seq<byte>)
    ensures Encode([b] + rest) == [DigitChar(b / 16), DigitChar(b % 16)] + Encode(rest)
  {
    assert ([b] + rest)[0] == b && ([b] + rest)[1..] == rest;
  }
}
