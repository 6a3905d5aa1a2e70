/**
 * Bytes and the boundary between Python text and bytes.  The model restricts
 * text to ASCII, where `str.encode('utf-8')` gives one byte per character.
 */
module Bytes {
  import opened Wrappers
  import opened Errors

  type byte = b: int | 0 <= b < 256

  predicate IsAscii(s: seq<char>) {
    forall i :: 0 <= i < |s| ==> s[i] as int < 128
  }

  /** `str.encode('utf-8')` of ASCII text. */
  function EncodeAscii(s: seq<char>): (r: seq<byte>)
    requires IsAscii(s)
    ensures |r| == |s|
    ensures forall i :: 0 <= i < |s| ==> r[i] == s[i] as int
  {
    seq(|s|, i requires 0 <= i < |s| => s[i] as int)
  }

  /**
   * `bytes.decode('utf-8')`, restricted to the ASCII range: any byte of 128
   * or more is reported as a decode failure.
   */
  function DecodeUtf8(b: seq<byte>): (r: Result<seq<char>, Error>)
    ensures r.Success? <==> forall i :: 0 <= i < |b| ==> b[i] < 128
    ensures r.Failure? ==> r.error == UnicodeDecode
    ensures r.Success? ==> IsAscii(r.value) && EncodeAscii(r.value) == b
  {
    if forall i | 0 <= i < |b| :: b[i] < 128 then
      Success(seq(|b|, i requires 0 <= i < |b| => b[i] as char))
    else
      Failure(UnicodeDecode)
  }

  /** Decoding inverts encoding on ASCII text. */
  lemma DecodeEncode(s: seq<char>)
    requires IsAscii(s)
    ensures DecodeUtf8(EncodeAscii(s)) == Success(s)
  {
    var r := DecodeUtf8(EncodeAscii(s));
    assert r.Success?;
    assert |r.value| == |s|;
    assert forall i :: 0 <= i < |s| ==> r.value[i] == s[i];
    assert r.value == s;
  }
}
