/** The two external primitives the generator drives: the SHAKE128
    extendable-output function of FIPS 202 and AES block encryption of
    FIPS 197 in ECB mode without padding. Their internals are not modelled:
    each is a function value handed in from outside, and only the shape of
    its output is constrained. The objects that hold them model the mutable
    state the generator sees (bytes absorbed so far, the current key). */
module Primitives {
  import opened JavaInt

  /** SHAKE128 as a function of everything absorbed since the last reset and
      of the number of bytes squeezed out. */
  type Xof = f: (seq<byte>, nat) -> seq<byte> | forall input, len :: |f(input, len)| == len
    witness (input: seq<byte>, len: nat) => seq(len, _ => 0 as byte)

  /** AES encryption of one 16-byte block under a key. */
  type BlockCipher = f: (seq<byte>, seq<byte>) -> seq<byte>
    | forall key, block :: |block| == 16 ==> |f(key, block)| == 16
    witness (key: seq<byte>, block: seq<byte>) => seq(16, _ => 0 as byte)

  /** A SHAKE128 digest object: `update` absorbs bytes, `doFinal` squeezes
      output and resets the object to its initial state. */
  class ShakeDigest {
    const squeeze: Xof
    var absorbed: seq<byte>

    constructor (squeeze: Xof)
      ensures this.squeeze == squeeze && absorbed == []
    {
      this.squeeze := squeeze;
      absorbed := [];
    }

    /** Absorbs `input[inOff..inOff + len]`. */
    method Update(input: seq<byte>, inOff: int, len: int)
      requires 0 <= inOff && 0 <= len && inOff + len <= |input|
      modifies this
      ensures absorbed == old(absorbed) + input[inOff..inOff + len]
    {
      absorbed := absorbed + input[inOff..inOff + len];
    }

    /** Squeezes `outLen` bytes of output for everything absorbed into
      `out[outOff..outOff + outLen]`, leaves the rest of `out` alone and
      resets the digest. */
    method DoFinal(out: array<byte>, outOff: int, outLen: int)
      requires 0 <= outOff && 0 <= outLen && outOff + outLen <= out.Length
      modifies this, out
      ensures out[outOff..outOff + outLen] == squeeze(old(absorbed), outLen)
      ensures forall t :: 0 <= t < out.Length && !(outOff <= t < outOff + outLen) ==> out[t] == old(out[t])
      ensures absorbed == []
    {
      var output := squeeze(absorbed, outLen);
      forall t | outOff <= t < outOff + outLen {
        out[t] := output[t - outOff];
      }
      absorbed := [];
    }
  }

  /** An AES/ECB/NoPadding cipher object: `init` sets the key, after which
      each 16-byte block is encrypted on its own. */
  class AesCipher {
    const encrypt: BlockCipher
    var initialized: bool
    var key: seq<byte>

    constructor (encrypt: BlockCipher)
      ensures this.encrypt == encrypt && !initialized
    {
      this.encrypt := encrypt;
      initialized := false;
      key := [];
    }

    /** Keys the cipher for encryption. */
    method Init(key: seq<byte>)
      modifies this
      ensures initialized && this.key == key
    {
      initialized := true;
      this.key := key;
    }

    /** Encrypts one block under the current key. */
    method EncryptBlock(block: seq<byte>) returns (out: seq<byte>)
      requires initialized && |block| == 16
      ensures |out| == 16 && out == encrypt(key, block)
    {
      out := encrypt(key, block);
    }
  }
}
