/**
 * Base16 (section 8 of RFC 4648) as Python's `binascii` writes and reads it:
 * `hexlify` emits lower-case digits, two per byte, high nibble first;
 * `unhexlify` accepts either case and rejects odd-length or non-hex text.
 */
module Binascii {
  import opened Wrappers
  import opened Errors
  import opened Bytes

  predicate IsLowerHexChar(c: char) {
    '0' <= c <= '9' || 'a' <= c <= 'f'
  }

  predicate IsHexChar(c: char) {
    '0' <= c <= '9' || 'a' <= c <= 'f' || 'A' <= c <= 'F'
  }

  /** The value of one hexadecimal digit, in either case. */
  function HexValue(c: char): (v: nat)
    requires IsHexChar(c)
    ensures v < 16
  {
    if '0' <= c <= '9' then c as int - '0' as int
    else if 'a' <= c <= 'f' then c as int - 'a' as int + 10
    else c as int - 'A' as int + 10
  }

  /** The lower-case digit `hexlify` writes for a nibble. */
  function HexDigit(d: nat): (c: char)
    requires d < 16
    ensures IsLowerHexChar(c) && HexValue(c) == d
  {
    if d < 10 then ('0' as int + d) as char else ('a' as int + d - 10) as char
  }

  /** A lower-case digit is the one `hexlify` writes for its own value. */
  lemma HexDigitOfValue(c: char)
    requires IsLowerHexChar(c)
    ensures HexDigit(HexValue(c)) == c
  {
  }

  /** `binascii.hexlify`. */
  function Hexlify(b: seq<byte>): (r: seq<char>)
    ensures |r| == 2 * |b|
    ensures forall i :: 0 <= i < |r| ==> IsLowerHexChar(r[i])
  {
    if b == [] then [] else [HexDigit(b[0] / 16), HexDigit(b[0] % 16)] + Hexlify(b[1..])
  }

  /**
   * `binascii.unhexlify` of a `str`: a non-ASCII character is refused
   * first, then odd length, then any character that is not a digit.
   */
  function Unhexlify(s: seq<char>): (r: Result<seq<byte>, Error>)
    ensures r.Success? <==> |s| % 2 == 0 && forall i :: 0 <= i < |s| ==> IsHexChar(s[i])
    ensures !IsAscii(s) ==> r == Failure(NonAsciiHex)
    ensures IsAscii(s) && |s| % 2 == 1 ==> r == Failure(OddLengthHex)
    ensures IsAscii(s) && |s| % 2 == 0 && r.Failure? ==> r.error == NonHexDigit
    ensures r.Success? ==> 2 * |r.value| == |s|
  {
    if !IsAscii(s) then Failure(NonAsciiHex)
    else if |s| % 2 == 1 then Failure(OddLengthHex)
    else UnhexPairs(s)
  }

  /** Decodes an even-length text pair by pair. */
  function UnhexPairs(s: seq<char>): (r: Result<seq<byte>, Error>)
    requires |s| % 2 == 0
    ensures r.Success? <==> forall i :: 0 <= i < |s| ==> IsHexChar(s[i])
    ensures r.Failure? ==> r.error == NonHexDigit
    ensures r.Success? ==> 2 * |r.value| == |s|
  {
    if s == [] then Success([])
    else if !IsHexChar(s[0]) || !IsHexChar(s[1]) then Failure(NonHexDigit)
    else
      var rest :- UnhexPairs(s[2..]);
      Success([HexValue(s[0]) * 16 + HexValue(s[1])] + rest)
  }

  /** Hex encoding distributes over concatenation, so a prefix of bytes is a prefix of text. */
  lemma {:induction false} HexlifyConcat(a: seq<byte>, b: seq<byte>)
    ensures Hexlify(a + b) == Hexlify(a) + Hexlify(b)
  {
    if a == [] {
      assert a + b == b;
    } else {
      assert (a + b)[0] == a[0] && (a + b)[1..] == a[1..] + b;
      HexlifyConcat(a[1..], b);
    }
  }

  lemma {:induction false} UnhexPairsHexlify(b: seq<byte>)
    ensures UnhexPairs(Hexlify(b)) == Success(b)
  {
    if b != [] {
      var h := Hexlify(b);
      assert h[2..] == Hexlify(b[1..]);
      UnhexPairsHexlify(b[1..]);
      assert HexValue(h[0]) * 16 + HexValue(h[1]) == b[0];
      assert [b[0]] + b[1..] == b;
    }
  }

  /** `unhexlify` inverts `hexlify`. */
  lemma {:induction false} UnhexlifyHexlify(b: seq<byte>)
    ensures Unhexlify(Hexlify(b)) == Success(b)
  {
    var h := Hexlify(b);
    assert |h| % 2 == 0;
    UnhexPairsHexlify(b);
  }

  lemma {:induction false} HexlifyUnhexPairs(s: seq<char>)
    requires |s| % 2 == 0
    requires forall i :: 0 <= i < |s| ==> IsLowerHexChar(s[i])
    ensures UnhexPairs(s).Success? && Hexlify(UnhexPairs(s).value) == s
  {
    if s != [] {
      HexlifyUnhexPairs(s[2..]);
      var v := UnhexPairs(s).value;
      var hi, lo := HexValue(s[0]), HexValue(s[1]);
      assert v[0] == hi * 16 + lo && v[1..] == UnhexPairs(s[2..]).value;
      assert v[0] / 16 == hi && v[0] % 16 == lo;
      HexDigitOfValue(s[0]);
      HexDigitOfValue(s[1]);
      assert s == [s[0], s[1]] + s[2..];
    }
  }

  /** On lower-case even-length hex text, `hexlify` inverts `unhexlify`. */
  lemma {:induction false} HexlifyUnhexlify(s: seq<char>)
    requires |s| % 2 == 0
    requires forall i :: 0 <= i < |s| ==> IsLowerHexChar(s[i])
    ensures Unhexlify(s).Success? && Hexlify(Unhexlify(s).value) == s
  {
    HexlifyUnhexPairs(s);
  }
}
