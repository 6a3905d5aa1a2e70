/**
 * What the `Crypto` operations guarantee, given only that the AES transforms
 * are sound: padding, framing, key use, round trips and verification.
 */
module CryptoProperties {
  import opened Wrappers
  import opened Errors
  import opened Bytes
  import opened Binascii
  import opened BigEndian
  import opened PyStr
  import opened AesModes
  import opened Crypto

  /**
   * The plaintexts that come back unchanged through CBC: no leading `'0'`
   * (stripped on decryption), and no leading sign unless already aligned
   * (`zfill` puts the zeros after it, where nothing strips them).
   */
  predicate SurvivesCbcPadding(p: seq<char>) {
    (p == [] || p[0] != '0') && (|p| % BlockSize == 0 || !HasSign(p))
  }

  // ---------------------------------------------------------------- padding

  /** The padded length is the least multiple of 16 that is at least `n`. */
  lemma PaddedLengthIsLeast(n: nat, m: nat)
    requires m % BlockSize == 0 && n <= m
    ensures PaddedLength(n) <= m
  {
  }

  /** Without a sign, padding puts the zeros in front of the whole text. */
  lemma PadCBCUnsigned(p: seq<char>)
    requires !HasSign(p)
    ensures PadCBC(p) == Zeros(PaddedLength(|p|) - |p|) + p
  {
  }

  /** With a sign, padding puts the zeros between the sign and the rest. */
  lemma PadCBCSigned(p: seq<char>)
    requires HasSign(p)
    ensures PadCBC(p) == [p[0]] + Zeros(PaddedLength(|p|) - |p|) + p[1..]
  {
    if |p| % BlockSize == 0 {
      assert [p[0]] + Zeros(0) + p[1..] == p;
    }
  }

  /** Without a sign, stripping the padded text strips only the text's own leading zeros. */
  lemma UnpadUnsigned(p: seq<char>)
    requires !HasSign(p)
    ensures LStripZeros(PadCBC(p)) == LStripZeros(p)
  {
    PadCBCUnsigned(p);
    LStripZerosAfterZeros(PaddedLength(|p|) - |p|, p);
  }

  /** With a sign, stripping leaves the padded text as it is. */
  lemma UnpadSigned(p: seq<char>)
    requires HasSign(p)
    ensures LStripZeros(PadCBC(p)) == PadCBC(p)
  {
    var padded := PadCBC(p);
    PadCBCSigned(p);
    assert padded[0] == p[0];
    LStripZerosNoLeadingZero(padded);
  }

  /** Stripping the padding gives the text back exactly when the text survives padding. */
  lemma UnpadPad(p: seq<char>)
    ensures LStripZeros(PadCBC(p)) == p <==> SurvivesCbcPadding(p)
  {
    if !HasSign(p) {
      UnpadUnsigned(p);
      if p != [] && p[0] != '0' {
        LStripZerosNoLeadingZero(p);
      }
    } else {
      UnpadSigned(p);
    }
  }

  // ---------------------------------------------------------------- framing

  /** Splitting the framed text at byte 16 gives back the IV and the payload. */
  lemma UnframeFrame(iv: seq<byte>, payload: seq<byte>)
    requires |iv| == BlockSize
    ensures Unframe(Frame(iv, payload)) == Success(Framed(iv, payload))
  {
    UnhexlifyHexlify(iv + payload);
    var raw := iv + payload;
    assert raw[..BlockSize] == iv && raw[BlockSize..] == payload;
  }

  /** The CBC output is the hex of the IV and whole blocks of cipher output. */
  lemma EncryptCbcFrame(m: Modes, key: seq<char>, iv: seq<byte>, p: seq<char>)
    requires Sound(m) && |iv| == BlockSize && IsAscii(p) && ValidKeyLength(|CipherKey(key)|)
    ensures EncryptCBC(m, key, iv, p).Success?
    ensures |EncryptCBC(m, key, iv, p).value| == 2 * (BlockSize + PaddedLength(|p|))
    ensures Unframe(EncryptCBC(m, key, iv, p).value)
      == Success(Framed(iv, m.cbcEncrypt(CipherKey(key), iv, EncodeAscii(PadCBC(p)))))
  {
    UnframeFrame(iv, m.cbcEncrypt(CipherKey(key), iv, EncodeAscii(PadCBC(p))));
  }

  /** The CTR output is the hex of the IV and as many bytes as the plaintext. */
  lemma EncryptCtrFrame(m: Modes, key: seq<char>, iv: seq<byte>, p: seq<char>)
    requires Sound(m) && |iv| == BlockSize && IsAscii(p) && ValidKeyLength(|CipherKey(key)|)
    ensures EncryptCTR(m, key, iv, p).Success?
    ensures |EncryptCTR(m, key, iv, p).value| == 2 * (BlockSize + |p|)
    ensures Unframe(EncryptCTR(m, key, iv, p).value)
      == Success(Framed(iv, m.ctrEncrypt(CipherKey(key), CtrInitialValue(iv), EncodeAscii(p))))
  {
    UnframeFrame(iv, m.ctrEncrypt(CipherKey(key), CtrInitialValue(iv), EncodeAscii(p)));
  }

  /** Decryption rebuilds the counter from the IV alone, and distinct IVs give distinct counters. */
  lemma CtrInitialValueInjective(a: seq<byte>, b: seq<byte>)
    requires |a| == |b| <= BlockSize && CtrInitialValue(a) == CtrInitialValue(b)
    ensures a == b
  {
    FromBytesInjective(a, b);
  }

  // ---------------------------------------------------------------- round trips

  /**
   * CBC decryption of a CBC encryption gives the padded text with its
   * leading zeros stripped: the plaintext itself exactly when it survives
   * padding, the plaintext without its leading zeros when it has no sign,
   * and the zero-filled text when it has a sign and is not aligned.
   */
  lemma CbcRoundTrip(m: Modes, key: seq<char>, iv: seq<byte>, p: seq<char>)
    requires Sound(m) && |iv| == BlockSize && IsAscii(p) && ValidKeyLength(|CipherKey(key)|)
    ensures EncryptCBC(m, key, iv, p).Success?
    ensures DecryptCBC(m, key, EncryptCBC(m, key, iv, p).value) == Success(LStripZeros(PadCBC(p)))
    ensures DecryptCBC(m, key, EncryptCBC(m, key, iv, p).value) == Success(p) <==> SurvivesCbcPadding(p)
    ensures !HasSign(p) ==> DecryptCBC(m, key, EncryptCBC(m, key, iv, p).value) == Success(LStripZeros(p))
    ensures HasSign(p) && |p| % BlockSize != 0 ==>
      DecryptCBC(m, key, EncryptCBC(m, key, iv, p).value)
        == Success([p[0]] + Zeros(PaddedLength(|p|) - |p|) + p[1..])
  {
    EncryptCbcFrame(m, key, iv, p);
    var data := EncodeAscii(PadCBC(p));
    assert m.cbcDecrypt(CipherKey(key), iv, m.cbcEncrypt(CipherKey(key), iv, data)) == data;
    DecodeEncode(PadCBC(p));
    UnpadPad(p);
    if HasSign(p) {
      UnpadSigned(p);
      PadCBCSigned(p);
    } else {
      UnpadUnsigned(p);
    }
  }

  /** CTR decryption of a CTR encryption gives the plaintext back, whatever it is. */
  lemma CtrRoundTrip(m: Modes, key: seq<char>, iv: seq<byte>, p: seq<char>)
    requires Sound(m) && |iv| == BlockSize && IsAscii(p) && ValidKeyLength(|CipherKey(key)|)
    ensures EncryptCTR(m, key, iv, p).Success?
    ensures DecryptCTR(m, key, EncryptCTR(m, key, iv, p).value) == Success(p)
  {
    EncryptCtrFrame(m, key, iv, p);
    var data := EncodeAscii(p);
    var n := CtrInitialValue(iv);
    assert m.ctrDecrypt(CipherKey(key), n, m.ctrEncrypt(CipherKey(key), n, data)) == data;
    DecodeEncode(p);
  }

  /**
   * Cipher text of fewer than 16 bytes: CBC refuses the short IV, while CTR
   * needs no IV and decrypts the empty payload to empty text.
   */
  lemma ShortCipherText(m: Modes, key: seq<char>, cipherText: seq<char>)
    requires Sound(m) && ValidKeyLength(|CipherKey(key)|)
    requires Unhexlify(cipherText).Success? && |Unhexlify(cipherText).value| < BlockSize
    ensures DecryptCBC(m, key, cipherText) == Failure(BadIvLength)
    ensures DecryptCTR(m, key, cipherText) == Success([])
  {
    var framed := Unframe(cipherText).value;
    var k, n := CipherKey(key), CtrInitialValue(framed.iv);
    assert framed.payload == [];
    assert |m.ctrEncrypt(k, n, [])| == 0;
    assert m.ctrEncrypt(k, n, []) == [];
    assert m.ctrDecrypt(k, n, []) == [];
  }

  // ---------------------------------------------------------------- verify

  /**
   * Verifying a text against a CBC encryption of some text succeeds and
   * tells whether it equals what the round trip gives back; against its
   * own encryption it is true exactly when the text survives padding, so it
   * is false for every text with a leading `'0'`.
   */
  lemma VerifyCbcEncrypted(m: Modes, key: seq<char>, iv: seq<byte>, p: seq<char>, q: seq<char>)
    requires Sound(m) && |iv| == BlockSize && IsAscii(q) && ValidKeyLength(|CipherKey(key)|)
    ensures EncryptCBC(m, key, iv, q).Success?
    ensures VerifyCBC(m, key, p, EncryptCBC(m, key, iv, q).value) == Success(p == LStripZeros(PadCBC(q)))
    ensures SurvivesCbcPadding(q) ==> VerifyCBC(m, key, p, EncryptCBC(m, key, iv, q).value) == Success(p == q)
    ensures p == q ==> VerifyCBC(m, key, p, EncryptCBC(m, key, iv, q).value) == Success(SurvivesCbcPadding(q))
    ensures p == q && |q| > 0 && q[0] == '0' ==>
      VerifyCBC(m, key, p, EncryptCBC(m, key, iv, q).value) == Success(false)
  {
    CbcRoundTrip(m, key, iv, q);
  }

  /** Verifying a text against a CTR encryption of some text is true exactly when they are equal. */
  lemma VerifyCtrEncrypted(m: Modes, key: seq<char>, iv: seq<byte>, p: seq<char>, q: seq<char>)
    requires Sound(m) && |iv| == BlockSize && IsAscii(q) && ValidKeyLength(|CipherKey(key)|)
    ensures EncryptCTR(m, key, iv, q).Success?
    ensures VerifyCTR(m, key, p, EncryptCTR(m, key, iv, q).value) == Success(p == q)
  {
    CtrRoundTrip(m, key, iv, q);
  }

  // ---------------------------------------------------------------- key use

  /** Keys that agree on their first 32 characters behave identically in every operation. */
  lemma KeyPrefixDecides(m: Modes, key1: seq<char>, key2: seq<char>, iv: seq<byte>, p: seq<char>, c: seq<char>)
    requires CipherKey(key1) == CipherKey(key2)
    requires |iv| == BlockSize && IsAscii(p)
    ensures EncryptCBC(m, key1, iv, p) == EncryptCBC(m, key2, iv, p)
    ensures DecryptCBC(m, key1, c) == DecryptCBC(m, key2, c)
    ensures VerifyCBC(m, key1, p, c) == VerifyCBC(m, key2, p, c)
    ensures EncryptCTR(m, key1, iv, p) == EncryptCTR(m, key2, iv, p)
    ensures DecryptCTR(m, key1, c) == DecryptCTR(m, key2, c)
    ensures VerifyCTR(m, key1, p, c) == VerifyCTR(m, key2, p, c)
  {
  }

  /** A key longer than 32 characters acts as its first 32 characters. */
  lemma LongKeyTruncated(key: seq<char>)
    requires |key| >= KeyPrefix
    ensures CipherKey(key) == CipherKey(key[..KeyPrefix])
  {
  }

  // ---------------------------------------------------------------- scenarios

  /** The demonstration's key and text come back unchanged in both modes. */
  lemma HelloWorld(m: Modes, iv: seq<byte>)
    requires Sound(m) && |iv| == BlockSize
    ensures var key, p := "id8e20fmsyy14oxld9enau1088sjxrpa", "hello world";
      && EncryptCBC(m, key, iv, p).Success?
      && DecryptCBC(m, key, EncryptCBC(m, key, iv, p).value) == Success(p)
      && VerifyCBC(m, key, p, EncryptCBC(m, key, iv, p).value) == Success(true)
      && EncryptCTR(m, key, iv, p).Success?
      && DecryptCTR(m, key, EncryptCTR(m, key, iv, p).value) == Success(p)
      && VerifyCTR(m, key, p, EncryptCTR(m, key, iv, p).value) == Success(true)
  {
    var key, p := "id8e20fmsyy14oxld9enau1088sjxrpa", "hello world";
    assert IsAscii(p);
    assert SurvivesCbcPadding(p);
    CbcRoundTrip(m, key, iv, p);
    VerifyCbcEncrypted(m, key, iv, p, p);
    VerifyCtrEncrypted(m, key, iv, p, p);
  }

  /** Malformed hex is reported, not decrypted. */
  lemma MalformedHexRejected(m: Modes, key: seq<char>)
    ensures DecryptCBC(m, key, "not-hex") == Failure(OddLengthHex)
    ensures DecryptCTR(m, key, "not-hex") == Failure(OddLengthHex)
    ensures DecryptCBC(m, key, "nothex") == Failure(NonHexDigit)
    ensures DecryptCTR(m, key, "nothex") == Failure(NonHexDigit)
    ensures DecryptCBC(m, key, "\U{e9}") == Failure(NonAsciiHex)
    ensures DecryptCTR(m, key, "\U{e9}") == Failure(NonAsciiHex)
  {
    assert !IsHexChar("nothex"[0]);
    var accented: seq<char> := "\U{e9}";
    assert accented[0] as int == 0xe9;
    assert !IsAscii(accented);
  }

  /** The 20-character key of the usage comment is refused by the cipher. */
  lemma UsageExampleKeyRejected(m: Modes, iv: seq<byte>, p: seq<char>)
    requires |iv| == BlockSize && IsAscii(p)
    ensures EncryptCBC(m, "this is a secret key", iv, p) == Failure(BadKeyLength)
    ensures EncryptCTR(m, "this is a secret key", iv, p) == Failure(BadKeyLength)
  {
  }
}
