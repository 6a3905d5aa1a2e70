/**
 * The AES block cipher in CBC and CTR mode, left abstract.  The transforms
 * are parameters of every operation; `Sound` states the facts about them
 * that the round-trip proofs rely on.
 */
module AesModes {
  import opened Bytes

  /** `AES.block_size`, in bytes. */
  const BlockSize: nat := 16

  /** Number of values of the `AES.block_size * 8` = 128-bit CTR counter. */
  const CounterModulus: nat := 0x1_0000_0000_0000_0000_0000_0000_0000_0000

  /** AES accepts keys of 16, 24 or 32 bytes (section 5 of FIPS 197). */
  predicate ValidKeyLength(n: nat) {
    n == 16 || n == 24 || n == 32
  }

  /**
   * CBC takes a key, a one-block IV and whole blocks of data; CTR takes a
   * key, the counter's initial value and data of any length.
   */
  datatype Modes = Modes(
    cbcEncrypt: (seq<char>, seq<byte>, seq<byte>) -> seq<byte>,
    cbcDecrypt: (seq<char>, seq<byte>, seq<byte>) -> seq<byte>,
    ctrEncrypt: (seq<char>, nat, seq<byte>) -> seq<byte>,
    ctrDecrypt: (seq<char>, nat, seq<byte>) -> seq<byte>)

  /**
   * For an accepted key, each encryption preserves length and is undone by
   * the matching decryption with the same key and IV or counter.
   */
  ghost predicate Sound(m: Modes) {
    && (forall k, iv, p ::
          ValidKeyLength(|k|) && |iv| == BlockSize && |p| % BlockSize == 0 ==>
            |m.cbcEncrypt(k, iv, p)| == |p| && m.cbcDecrypt(k, iv, m.cbcEncrypt(k, iv, p)) == p)
    && (forall k, n: nat, p ::
          ValidKeyLength(|k|) && n < CounterModulus ==>
            |m.ctrEncrypt(k, n, p)| == |p| && m.ctrDecrypt(k, n, m.ctrEncrypt(k, n, p)) == p)
  }

  /** The assumption is consistent: the identity transforms meet it. */
  lemma SoundIsSatisfiable()
    ensures exists m :: Sound(m)
  {
    var id := Modes((k, iv, p) => p, (k, iv, p) => p, (k, n, p) => p, (k, n, p) => p);
    assert Sound(id);
  }
}
