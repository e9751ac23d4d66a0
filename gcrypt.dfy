/**
  * The part of libgcrypt the engine calls into, as values handed to every
  * operation: the primitives are not modelled, only what the engine relies
  * on about them.
  */
module Gcrypt {
  import opened Bytes
  import opened Errors
  import opened SExps
  import opened Cbc

  /**
    * - `aesEncrypt`/`aesDecrypt`: one AES-256 block under a 32-byte key;
    * - `blake2s`: a BLAKE2s-256 digest (`gcry_md_read` after `gcry_md_write`);
    * - `pkEncrypt(data, pkey)`: `gcry_pk_encrypt`, an S-expression or a
    *   non-zero error code;
    * - `strerror(err)`: the 1024 characters `gpg_strerror_r` leaves in the
    *   buffer, a description followed by NUL padding.
    */
  /** A libgcrypt error code that reports a failure: never 0. */
  type ErrorCode = c: nat | c > 0 witness 1

  datatype Backend = Backend(
    aesEncrypt: (Key, Block) -> Block,
    aesDecrypt: (Key, Block) -> Block,
    blake2s: seq<Byte> -> Key,
    pkEncrypt: (SExp, SExp) -> Result<SExp, ErrorCode>,
    strerror: nat -> string)

  /** AES block decryption inverts block encryption under every key. */
  ghost predicate Valid(g: Backend)
  {
    forall k, b :: g.aesDecrypt(k, g.aesEncrypt(k, b)) == b
  }

  /** The block encryption of a handle keyed with `key`. */
  function Enc(g: Backend, key: Key): Block -> Block
  {
    b => g.aesEncrypt(key, b)
  }

  /** The block decryption of a handle keyed with `key`. */
  function Dec(g: Backend, key: Key): Block -> Block
  {
    b => g.aesDecrypt(key, b)
  }

  lemma ValidInverts(g: Backend, key: Key)
    requires Valid(g)
    ensures Inverts(Enc(g, key), Dec(g, key))
  {
    forall b: Block ensures Dec(g, key)(Enc(g, key)(b)) == b {
      assert g.aesDecrypt(key, g.aesEncrypt(key, b)) == b;
    }
  }

  /** What a keyed CBC-CTS handle does on `gcry_cipher_setiv(iv)` followed by
    * `gcry_cipher_encrypt` or `gcry_cipher_decrypt` of a whole buffer: the
    * output buffer, or an error code. */
  type CipherOp = (Block, seq<Byte>) -> Result<seq<Byte>, nat>

  /** The encryption of a handle keyed with `key`. */
  function Encryptor(g: Backend, key: Key): CipherOp
  {
    (iv, p) => CipherEncrypt(Enc(g, key), iv, p)
  }

  /** The decryption of a handle keyed with `key`. */
  function Decryptor(g: Backend, key: Key): CipherOp
  {
    (iv, c) => CipherDecrypt(Dec(g, key), iv, c)
  }

  /** The length check of a CTS handle, and an output as long as the input. */
  ghost predicate LengthChecked(op: CipherOp)
  {
    forall iv, p ::
      (op(iv, p).Err? <==> !LengthAccepted(|p|)) &&
      (op(iv, p).Err? ==> op(iv, p).error == InvalidLengthError) &&
      (op(iv, p).Ok? ==> |op(iv, p).value| == |p|)
  }

  /** Whatever IV decryption is given, everything after the first block of a
    * ciphertext longer than one block decrypts to the plaintext. */
  ghost predicate RecoversPastFirstBlock(enc: CipherOp, dec: CipherOp)
  {
    forall iv, other, p | |p| > 16 ::
      enc(iv, p).Ok? && dec(other, enc(iv, p).value).Ok? &&
      |dec(other, enc(iv, p).value).value| >= 16 &&
      dec(other, enc(iv, p).value).value[16..] == p[16..]
  }

  lemma HandlesCheckLength(g: Backend, key: Key)
    ensures LengthChecked(Encryptor(g, key)) && LengthChecked(Decryptor(g, key))
  {
    forall iv, p ensures Encryptor(g, key)(iv, p) == CipherEncrypt(Enc(g, key), iv, p) {
    }
    forall iv, c ensures Decryptor(g, key)(iv, c) == CipherDecrypt(Dec(g, key), iv, c) {
    }
  }

  /** With a valid backend, a handle's decryption recovers what its encryption
    * was given, past the first block. */
  lemma HandlesRecover(g: Backend, key: Key)
    requires Valid(g)
    ensures RecoversPastFirstBlock(Encryptor(g, key), Decryptor(g, key))
  {
    var E, D := Enc(g, key), Dec(g, key);
    ValidInverts(g, key);
    forall iv, other, p | |p| > 16
      ensures Encryptor(g, key)(iv, p).Ok?
      ensures var c := Encryptor(g, key)(iv, p).value;
              Decryptor(g, key)(other, c).Ok? && |Decryptor(g, key)(other, c).value| >= 16 &&
              Decryptor(g, key)(other, c).value[16..] == p[16..]
    {
      CipherRoundTripPastFirstBlock(E, D, iv, other, p);
    }
  }

  /** The message `printGcryptError(err, prefix)` throws. */
  function ErrorMessage(g: Backend, err: nat, prefix: string): (m: string)
    ensures |m| > |prefix| + 1 && m[..|prefix| + 1] == prefix + " "
  {
    GcryptErrorMessage(err, prefix, g.strerror(err))
  }
}
