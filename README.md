# python_crypto `Crypto` class in Dafny

This project models the `Crypto` class of `crypto.py`. The class wraps PyCrypto's AES to offer six
operations: `EncryptCBC`, `DecryptCBC`, `VerifyCBC`, `EncryptCTR`, `DecryptCTR` and `VerifyCTR`.
The model covers the work the class does around the cipher:

- CBC padding. The plaintext is left-padded with `'0'` by `str.zfill` to `16 * ceil(len / 16)`.
  Decryption strips every leading `'0'` with `lstrip('0')`.
- Key use. The cipher is keyed with `key[:32]`.
- Framing. The output is lower-case hex of IV ‖ cipher output, and it is split back at byte 16.
- CTR counter. The counter is seeded with the IV read as a big-endian integer.
- Verify. The verify operations compare for plain equality.

The AES block cipher and the CBC/CTR chaining belong to PyCrypto. They are four arrow-typed fields of
`AesModes.Modes`, passed to every operation. `AesModes.Sound` states what the proofs assume of them:
for an accepted key, each encryption preserves length and is undone by the matching decryption.
CBC assumes a 16-byte IV and whole blocks; CTR assumes a counter below 2^128.
`AesModes.SoundIsSatisfiable` shows that the assumption can be met.
The IV that the source draws from `Random.new().read(16)` is a parameter.

The exceptions a caller can see are the `Failure` values of `Errors.Error` (the CTR counter overflow under "Left out" is the one exception not modelled):

- malformed hex: a non-ASCII character, odd length, or a non-hex digit;
- an IV that is not 16 bytes (CBC only);
- a key that is not 16, 24 or 32 characters after truncation;
- CBC data that is not a whole number of blocks;
- decrypted bytes that do not decode.

Modules: `Wrappers` and `Errors` (wrappers.dfy), `Bytes` (ASCII text and bytes), `Binascii`
(`hexlify`/`unhexlify`), `PyStr` (`zfill`, `lstrip('0')`), `BigEndian` (`int.from_bytes`),
`AesModes` (the abstract cipher), `Crypto` (the six operations) and `CryptoProperties` (what they guarantee).

Behaviour of the code worth knowing:

- CBC round-trips exactly the texts in `CryptoProperties.SurvivesCbcPadding` (`CryptoProperties.CbcRoundTrip`).
  Texts that start with `'0'` come back without their leading zeros, because `lstrip('0')` removes them (crypto.py:90).
  Texts that start with `'+'` or `'-'` and are not a multiple of 16 long come back changed too.
  `zfill` puts the zeros after the sign (crypto.py:72), and nothing strips them.
- `VerifyCBC(k, p, EncryptCBC(k, q))` is true exactly when `p` is what `q` becomes after the round trip.
  So it can be true for `p != q` (for example `q = "0a"`, `p = "a"`), and it is false for `p == q` when `q` starts with `'0'`.
  `CryptoProperties.VerifyCbcEncrypted` states the exact result.
- The comments on `VerifyCBC`/`VerifyCTR` say they return a string. The code returns a boolean, and so does the model.
- The key in the usage comment has 20 characters, and AES refuses it (`CryptoProperties.UsageExampleKeyRejected`).
- `DecryptCTR` does not fail on hex text shorter than 16 bytes. CTR mode takes no IV, so the counter is seeded from
  the bytes there are and the empty payload decrypts to `""`. `DecryptCBC` refuses the short IV
  (`CryptoProperties.ShortCipherText`).

## Model

| member | source | states |
|---|---|---|
| `Bytes.EncodeAscii` | crypto.py:75 | Encoding ASCII text gives one byte per character, equal to the character's code. |
| `Bytes.DecodeUtf8` | crypto.py:90 | Decoding succeeds exactly when every byte is below 128; any failure is a decode error; a decoded text is ASCII and encodes back to the same bytes. |
| `Bytes.DecodeEncode` | crypto.py:90 | Decoding inverts encoding on ASCII text. |
| `Binascii.HexDigit` | crypto.py:76 | The digit written for a nibble is a lower-case hex digit whose value is that nibble. |
| `Binascii.Hexlify` | crypto.py:76 | The hex text has two characters per byte, all lower-case hex digits. |
| `Binascii.Unhexlify` | crypto.py:86 | Decoding succeeds exactly when the text has even length and only hex digits (either case). A non-ASCII character is reported first, then odd length, then a non-hex digit. The result has half as many bytes as the text has characters. |
| `Binascii.UnhexPairs` | crypto.py:86 | On even-length text: succeeds exactly when every character is a hex digit, and yields one byte per two characters. |
| `Binascii.HexlifyConcat` | crypto.py:76 | The hex of a concatenation is the concatenation of the hex, so the first 32 characters of the output encode the IV. |
| `Binascii.UnhexlifyHexlify` | crypto.py:76-86 | `unhexlify` inverts `hexlify` for every byte string. |
| `Binascii.HexlifyUnhexlify` | crypto.py:76-86 | On lower-case hex text of even length, `hexlify` inverts `unhexlify`. |
| `PyStr.ZFill` | crypto.py:72 | The result has the larger of the text's length and the width. Text already that long is unchanged. Otherwise a leading sign stays first, the rest of the text ends the result, and only `'0'`s lie between. |
| `PyStr.LStripZeros` | crypto.py:90 | The result is a suffix of the text, everything removed was `'0'`, and the result does not start with `'0'`. |
| `PyStr.LStripZerosNoLeadingZero` | crypto.py:90 | Text that does not start with `'0'` is not changed by stripping. |
| `PyStr.LStripZerosAfterZeros` | crypto.py:72-90 | Zeros put in front of a text are all stripped, and the text is then stripped as on its own. |
| `BigEndian.FromBytes` | crypto.py:113 | The big-endian value of `n` bytes is below 256^n. |
| `BigEndian.FromBytesToBytes` | crypto.py:113 | Reading back the big-endian bytes of a value gives the value. |
| `BigEndian.ToBytesFromBytes` | crypto.py:113 | Writing the value of a byte string back at its length gives the byte string. |
| `BigEndian.FromBytesInjective` | crypto.py:113 | Byte strings of equal length with equal values are equal. |
| `AesModes.SoundIsSatisfiable` | crypto.py:74-75 | Some choice of CBC/CTR transforms meets the assumption the round-trip proofs make. |
| `Crypto.CipherKey` | crypto.py:74 | The cipher key is the key's first 32 characters, or the whole key if shorter. |
| `Crypto.PaddedLength` | crypto.py:71 | `16 * ceil(n / 16)` is a multiple of 16 that is at least `n` and less than `n + 16`. |
| `Crypto.PadCBC` | crypto.py:71-72 | The padded text has the padded length, is unchanged when already aligned (the empty text too), and stays ASCII. |
| `Crypto.CtrInitialValue` | crypto.py:113 | The counter seed read from an IV of at most 16 bytes lies in [0, 2^128). |
| `Crypto.Frame` | crypto.py:76 | The output has two hex characters per byte of IV and payload, and starts with the hex of the IV. |
| `Crypto.Unframe` | crypto.py:86-88 | Hex errors pass through. Otherwise IV and payload concatenate to the decoded bytes, and the IV is the first 16 bytes, or all of them if fewer. |
| `Crypto.CbcEncrypt` | crypto.py:75 | CBC encryption succeeds exactly on whole blocks, and any failure is an alignment error. |
| `Crypto.CbcDecrypt` | crypto.py:90 | CBC decryption succeeds exactly on whole blocks, and any failure is an alignment error. |
| `Crypto.EncryptCBC` | crypto.py:70-76 | Succeeds exactly when the truncated key has an AES length, and the only failure is a bad key; padding always makes whole blocks. The output starts with the IV's 32 hex characters. |
| `Crypto.DecryptCBC` | crypto.py:85-90 | Hex errors pass through. Then fewer than 16 decoded bytes give a bad IV, a bad key gives a bad key length, and a length that is not whole blocks gives an alignment error. Any other failure is a decode error. Success needs all of these checks to pass. The result is ASCII and never starts with `'0'`. |
| `Crypto.VerifyCBC` | crypto.py:100-102 | Fails exactly when decryption fails, with its error; otherwise true exactly when the text equals the decryption. |
| `Crypto.EncryptCTR` | crypto.py:111-116 | Succeeds exactly when the truncated key has an AES length, and the only failure is a bad key. The output starts with the IV's 32 hex characters. |
| `Crypto.DecryptCTR` | crypto.py:125-131 | Hex errors pass through, then a bad key length; after that the only failure is a decode error; the result is ASCII. |
| `Crypto.VerifyCTR` | crypto.py:141-143 | Fails exactly when decryption fails, with its error; otherwise true exactly when the text equals the decryption. |
| `CryptoProperties.PaddedLengthIsLeast` | crypto.py:71-72 | No multiple of 16 that is at least `n` is smaller than the padded length. |
| `CryptoProperties.PadCBCUnsigned` | crypto.py:72 | Without a leading sign, padding puts all the zeros in front of the text. |
| `CryptoProperties.PadCBCSigned` | crypto.py:72 | With a leading sign, padding puts the zeros between the sign and the rest. |
| `CryptoProperties.UnpadUnsigned` | crypto.py:72-90 | Without a sign, stripping the padded text gives the text minus its own leading zeros. |
| `CryptoProperties.UnpadSigned` | crypto.py:72-90 | With a sign, stripping leaves the padded text unchanged. |
| `CryptoProperties.UnpadPad` | crypto.py:72-90 | Stripping the padded text gives the text back exactly when it survives padding. |
| `CryptoProperties.UnframeFrame` | crypto.py:76-88 | Splitting the framed output at byte 16 gives back the IV and the payload. |
| `CryptoProperties.EncryptCbcFrame` | crypto.py:70-76 | With a sound cipher and an accepted key, CBC output is `2 * (16 + padded length)` hex characters and splits into the IV and the cipher output of the padded text. |
| `CryptoProperties.EncryptCtrFrame` | crypto.py:111-116 | With a sound cipher and an accepted key, CTR output is `2 * (16 + len)` hex characters and splits into the IV and the cipher output under the IV's counter seed. |
| `CryptoProperties.CtrInitialValueInjective` | crypto.py:113-129 | IVs of equal length that give the same counter seed are equal, so decryption's seed identifies encryption's. |
| `CryptoProperties.CbcRoundTrip` | crypto.py:70-90 | Decrypting an encryption gives the stripped padded text. That is the plaintext exactly when it survives padding. Without a sign it is the plaintext minus its leading zeros. With a sign and unaligned length it is the zero-filled text. |
| `CryptoProperties.CtrRoundTrip` | crypto.py:111-131 | Decrypting a CTR encryption gives back every ASCII plaintext, including ones with leading zeros. |
| `CryptoProperties.ShortCipherText` | crypto.py:85-131 | Hex of fewer than 16 bytes is refused by CBC for its IV length and decrypts to empty text in CTR. |
| `CryptoProperties.VerifyCbcEncrypted` | crypto.py:100-102 | Against a CBC encryption of `q`, verify is true exactly for the text `q` round-trips to. It is true for `q` itself exactly when `q` survives padding, so it is false when `q` starts with `'0'`. |
| `CryptoProperties.VerifyCtrEncrypted` | crypto.py:141-143 | Against a CTR encryption of `q`, verify is true exactly when the text equals `q`. |
| `CryptoProperties.KeyPrefixDecides` | crypto.py:74 | Keys with the same first 32 characters give identical results in all six operations. |
| `CryptoProperties.LongKeyTruncated` | crypto.py:74 | A key of 32 or more characters is used as its first 32 characters. |
| `CryptoProperties.HelloWorld` | test_crypto.py:8-41 | The demonstration key and `"hello world"` round-trip and verify in both modes. |
| `CryptoProperties.MalformedHexRejected` | crypto.py:86 | In both modes, `"not-hex"` is refused for odd length, `"nothex"` for a non-hex digit and `"é"` for a non-ASCII character. |
| `CryptoProperties.UsageExampleKeyRejected` | crypto.py:17-21 | The 20-character key of the usage comment is refused by both encrypt operations. |

## Left out

- AES itself (FIPS 197) and the CBC/CTR chaining (sections 6.2 and 6.5 of NIST SP 800-38A) are left abstract. They live in PyCrypto, and the model only assumes `AesModes.Sound` of them.
- PyCrypto's CTR counter raises `OverflowError` when the counter wraps past 2^128 within one message. The model drops that error: the CTR transforms are total functions and cannot fail. So `Crypto.EncryptCTR` and `Crypto.DecryptCTR` report success where PyCrypto raises, for example for an IV of sixteen `0xff` bytes with a payload of more than 16 bytes.
- The random IV (`Random.new().read`) is a parameter. That IVs differ between calls is probabilistic and not stated.
- Crypto.EncryptCBC: requires ASCII plaintext, because padding counts characters while the cipher counts bytes; the model does not cover multi-byte UTF-8 text.
- Crypto.EncryptCTR: requires ASCII plaintext; multi-byte UTF-8 text is not covered.
- Bytes.DecodeUtf8: reports every byte of 128 or more as a decode error, where Python would decode valid multi-byte UTF-8 sequences.
- Key length is checked on characters, which equals bytes for ASCII keys only.
- The order between the IV-length and key-length errors in CBC follows one reading of PyCrypto's `AES.new`. Both are errors either way.
- `math.ceil` of a float division is modelled as exact integer ceiling.
- The constructor only records `sys.version_info` and has no effect on any operation, so it is not modelled.
- Verification uses ordinary equality. Timing is not a modelling concern.
- test_crypto.py only prints; its scenario is `CryptoProperties.HelloWorld`.
