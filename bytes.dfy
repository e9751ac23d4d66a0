/** Byte strings, fixed-size blocks and the XOR used by cipher-block chaining. */
module Bytes {

  /** An `unsigned char`; a C++ `std::string` of data is a sequence of these. */
  type Byte = bv8

  /** Block length of AES-256 (`gcry_cipher_get_algo_blklen(GCRY_CIPHER_AES256)`). */
  const BlockSize: nat := 16

  /** Length of a BLAKE2s-256 digest, which is also the AES-256 key length. */
  const KeySize: nat := 32

  const ZeroBlock: seq<Byte> := seq(16, _ => 0)
  const ZeroKey: seq<Byte> := seq(32, _ => 0)

  type Block = s: seq<Byte> | |s| == 16 witness ZeroBlock
  type Key = s: seq<Byte> | |s| == 32 witness ZeroKey

  function Zeros(n: nat): (r: seq<Byte>)
    ensures |r| == n
    ensures forall i :: 0 <= i < n ==> r[i] == 0
  {
    seq(n, _ => 0)
  }

  /** Byte-wise exclusive or of two strings of equal length. */
  function Xor(a: seq<Byte>, b: seq<Byte>): (r: seq<Byte>)
    requires |a| == |b|
    ensures |r| == |a|
    ensures forall i :: 0 <= i < |a| ==> r[i] == a[i] ^ b[i]
  {
    seq(|a|, i requires 0 <= i < |a| => a[i] ^ b[i])
  }

  lemma XorCancel(a: seq<Byte>, b: seq<Byte>)
    requires |a| == |b|
    ensures Xor(Xor(a, b), b) == a
  {
    var x := Xor(Xor(a, b), b);
    forall i | 0 <= i < |a| ensures x[i] == a[i] {
      assert x[i] == (a[i] ^ b[i]) ^ b[i];
    }
  }

  lemma XorZeros(a: seq<Byte>)
    ensures Xor(Zeros(|a|), a) == a
  {
    var x := Xor(Zeros(|a|), a);
    forall i | 0 <= i < |a| ensures x[i] == a[i] {
      assert x[i] == 0 ^ a[i];
    }
  }

  /** A C++ `char` reinterpreted as an `unsigned char`. */
  function CharToByte(c: char): Byte
  {
    ((c as int) % 256) as Byte
  }

  /** The bytes of a string literal such as a token name. */
  function StringBytes(s: string): (r: seq<Byte>)
    ensures |r| == |s|
  {
    seq(|s|, i requires 0 <= i < |s| => CharToByte(s[i]))
  }
}
