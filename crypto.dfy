/**
 * The `Crypto` class: encrypt, decrypt and verify in CBC and CTR mode.
 * The class keeps no state that any operation reads, so each operation is a
 * function of the AES transforms `m`, its arguments and, for encryption,
 * the IV that the source draws from `Random.new().read(16)`.
 */
module Crypto {
  import opened Wrappers
  import opened Errors
  import opened Bytes
  import opened Binascii
  import opened BigEndian
  import opened PyStr
  import opened AesModes

  /** Only this many leading characters of the key are used (`key[:32]`). */
  const KeyPrefix: nat := 32

  /** The IV and the cipher output, as `DecryptCBC`/`DecryptCTR` split them. */
  datatype Framed = Framed(iv: seq<byte>, payload: seq<byte>)

  /** `key[:32]`: the key the cipher is built with. */
  function CipherKey(key: seq<char>): (k: seq<char>)
    ensures |k| == if |key| < KeyPrefix then |key| else KeyPrefix
    ensures k == key[..|k|]
  {
    if |key| <= KeyPrefix then key else key[..KeyPrefix]
  }

  /** `16 * math.ceil(n / 16)`: the length the CBC plaintext is padded to. */
  function PaddedLength(n: nat): (r: nat)
    ensures r % BlockSize == 0
    ensures n <= r < n + BlockSize
  {
    BlockSize * ((n + BlockSize - 1) / BlockSize)
  }

  /** `plainText.zfill(16 * mul)`: left-padding with `'0'` to whole blocks. */
  function PadCBC(plainText: seq<char>): (r: seq<char>)
    ensures |r| == PaddedLength(|plainText|)
    ensures |plainText| % BlockSize == 0 ==> r == plainText
    ensures IsAscii(plainText) ==> IsAscii(r)
  {
    ZFill(plainText, PaddedLength(|plainText|))
  }

  /** The counter's initial value: the IV read as a big-endian integer. */
  function CtrInitialValue(iv: seq<byte>): (n: nat)
    requires |iv| <= BlockSize
    ensures n < CounterModulus
  {
    Pow256Monotonic(|iv|, BlockSize);
    Pow256OfBlockSize();
    FromBytes(iv)
  }

  lemma Pow256OfBlockSize()
    ensures Pow256(BlockSize) == CounterModulus
  {
    assert Pow256(2) == 0x1_0000;
    assert Pow256(4) == 0x1_0000_0000;
    assert Pow256(6) == 0x1_0000_0000_0000;
    assert Pow256(8) == 0x1_0000_0000_0000_0000;
    assert Pow256(10) == 0x1_0000_0000_0000_0000_0000;
    assert Pow256(12) == 0x1_0000_0000_0000_0000_0000_0000;
    assert Pow256(14) == 0x1_0000_0000_0000_0000_0000_0000_0000;
  }

  /** `binascii.hexlify(iv + cipherText).decode('utf-8')`. */
  function Frame(iv: seq<byte>, cipherText: seq<byte>): (r: seq<char>)
    ensures |r| == 2 * (|iv| + |cipherText|)
    ensures r[..2 * |iv|] == Hexlify(iv)
  {
    HexlifyConcat(iv, cipherText);
    Hexlify(iv + cipherText)
  }

  /** `binascii.unhexlify`, then `[:16]` and `[16:]`. */
  function Unframe(cipherText: seq<char>): (r: Result<Framed, Error>)
    ensures Unhexlify(cipherText).Failure? ==> r == Failure(Unhexlify(cipherText).error)
    ensures Unhexlify(cipherText).Success? ==>
      && r.Success?
      && r.value.iv + r.value.payload == Unhexlify(cipherText).value
      && |r.value.iv| == if |Unhexlify(cipherText).value| < BlockSize
                         then |Unhexlify(cipherText).value| else BlockSize
  {
    var raw :- Unhexlify(cipherText);
    var cut := if |raw| < BlockSize then |raw| else BlockSize;
    assert raw[..cut] + raw[cut..] == raw;
    Success(Framed(raw[..cut], raw[cut..]))
  }

  /** `cipher.encrypt` in CBC mode, which rejects data that is not whole blocks. */
  function CbcEncrypt(m: Modes, k: seq<char>, iv: seq<byte>, data: seq<byte>): (r: Result<seq<byte>, Error>)
    ensures r.Success? <==> |data| % BlockSize == 0
    ensures r.Failure? ==> r.error == UnalignedInput
  {
    if |data| % BlockSize != 0 then Failure(UnalignedInput) else Success(m.cbcEncrypt(k, iv, data))
  }

  /** `cipher.decrypt` in CBC mode, which rejects data that is not whole blocks. */
  function CbcDecrypt(m: Modes, k: seq<char>, iv: seq<byte>, data: seq<byte>): (r: Result<seq<byte>, Error>)
    ensures r.Success? <==> |data| % BlockSize == 0
    ensures r.Failure? ==> r.error == UnalignedInput
  {
    if |data| % BlockSize != 0 then Failure(UnalignedInput) else Success(m.cbcDecrypt(k, iv, data))
  }

  /**
   * `Crypto.EncryptCBC`.  Padding makes the data whole blocks, so the only
   * failure left is a key the cipher refuses.
   */
  function EncryptCBC(m: Modes, key: seq<char>, iv: seq<byte>, plainText: seq<char>): (r: Result<seq<char>, Error>)
    requires |iv| == BlockSize
    requires IsAscii(plainText)
    ensures r.Success? <==> ValidKeyLength(|CipherKey(key)|)
    ensures r.Failure? ==> r.error == BadKeyLength
    ensures r.Success? ==> |r.value| >= 2 * BlockSize && r.value[..2 * BlockSize] == Hexlify(iv)
  {
    var padded := PadCBC(plainText);
    var k := CipherKey(key);
    if !ValidKeyLength(|k|) then Failure(BadKeyLength)
    else
      match CbcEncrypt(m, k, iv, EncodeAscii(padded))
      case Failure(e) => Failure(e)
      case Success(cipherText) => Success(Frame(iv, cipherText))
  }

  /**
   * `Crypto.DecryptCBC`.  Whatever it returns has no leading `'0'`, whatever
   * the plaintext was.
   */
  function DecryptCBC(m: Modes, key: seq<char>, cipherText: seq<char>): (r: Result<seq<char>, Error>)
    ensures Unhexlify(cipherText).Failure? ==> r == Failure(Unhexlify(cipherText).error)
    ensures Unhexlify(cipherText).Success? ==>
      var n, keyOk := |Unhexlify(cipherText).value|, ValidKeyLength(|CipherKey(key)|);
      && (n < BlockSize ==> r == Failure(BadIvLength))
      && (n >= BlockSize && !keyOk ==> r == Failure(BadKeyLength))
      && (n >= BlockSize && keyOk && n % BlockSize != 0 ==> r == Failure(UnalignedInput))
      && (n >= BlockSize && keyOk && n % BlockSize == 0 && r.Failure? ==> r.error == UnicodeDecode)
    ensures r.Success? ==>
      && |Unhexlify(cipherText).value| >= BlockSize
      && |Unhexlify(cipherText).value| % BlockSize == 0
      && ValidKeyLength(|CipherKey(key)|)
    ensures r.Success? ==> IsAscii(r.value) && (r.value == [] || r.value[0] != '0')
  {
    var framed :- Unframe(cipherText);
    var k := CipherKey(key);
    if |framed.iv| != BlockSize then Failure(BadIvLength)
    else if !ValidKeyLength(|k|) then Failure(BadKeyLength)
    else
      var decrypted :- CbcDecrypt(m, k, framed.iv, framed.payload);
      var text :- DecodeUtf8(decrypted);
      Success(LStripZeros(text))
  }

  /** `Crypto.VerifyCBC`: plain equality with the decryption. */
  function VerifyCBC(m: Modes, key: seq<char>, plainText: seq<char>, cipherText: seq<char>): (r: Result<bool, Error>)
    ensures r.Success? <==> DecryptCBC(m, key, cipherText).Success?
    ensures r.Failure? ==> r.error == DecryptCBC(m, key, cipherText).error
    ensures r.Success? ==> (r.value <==> plainText == DecryptCBC(m, key, cipherText).value)
  {
    var decrypted :- DecryptCBC(m, key, cipherText);
    Success(plainText == decrypted)
  }

  /** `Crypto.EncryptCTR`: no padding; the counter starts at the IV's value. */
  function EncryptCTR(m: Modes, key: seq<char>, iv: seq<byte>, plainText: seq<char>): (r: Result<seq<char>, Error>)
    requires |iv| == BlockSize
    requires IsAscii(plainText)
    ensures r.Success? <==> ValidKeyLength(|CipherKey(key)|)
    ensures r.Failure? ==> r.error == BadKeyLength
    ensures r.Success? ==> |r.value| >= 2 * BlockSize && r.value[..2 * BlockSize] == Hexlify(iv)
  {
    var k := CipherKey(key);
    if !ValidKeyLength(|k|) then Failure(BadKeyLength)
    else Success(Frame(iv, m.ctrEncrypt(k, CtrInitialValue(iv), EncodeAscii(plainText))))
  }

  /**
   * `Crypto.DecryptCTR`.  CTR mode takes no IV argument, so fewer than 16
   * decoded bytes are not an error: the counter is seeded from whatever
   * there is and the payload is empty.
   */
  function DecryptCTR(m: Modes, key: seq<char>, cipherText: seq<char>): (r: Result<seq<char>, Error>)
    ensures Unhexlify(cipherText).Failure? ==> r == Failure(Unhexlify(cipherText).error)
    ensures Unhexlify(cipherText).Success? && !ValidKeyLength(|CipherKey(key)|) ==> r == Failure(BadKeyLength)
    ensures r.Failure? && Unhexlify(cipherText).Success? && ValidKeyLength(|CipherKey(key)|) ==>
      r.error == UnicodeDecode
    ensures r.Success? ==> IsAscii(r.value)
  {
    var framed :- Unframe(cipherText);
    var k := CipherKey(key);
    if !ValidKeyLength(|k|) then Failure(BadKeyLength)
    else DecodeUtf8(m.ctrDecrypt(k, CtrInitialValue(framed.iv), framed.payload))
  }

  /** `Crypto.VerifyCTR`: plain equality with the decryption. */
  function VerifyCTR(m: Modes, key: seq<char>, plainText: seq<char>, cipherText: seq<char>): (r: Result<bool, Error>)
    ensures r.Success? <==> DecryptCTR(m, key, cipherText).Success?
    ensures r.Failure? ==> r.error == DecryptCTR(m, key, cipherText).error
    ensures r.Success? ==> (r.value <==> plainText == DecryptCTR(m, key, cipherText).value)
  {
    var decrypted :- DecryptCTR(m, key, cipherText);
    Success(plainText == decrypted)
  }
}
