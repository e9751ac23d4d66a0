/**
  * AES-256 in CBC mode with the `GCRY_CIPHER_CBC_CTS` flag, as libgcrypt runs
  * it for `gcry_cipher_encrypt`/`gcry_cipher_decrypt` on a handle opened by the
  * engine. The block cipher is a parameter: `E` and `D` are the keyed block
  * encryption and decryption.
  *
  * Cipher-block chaining follows section 6.2 of NIST SP 800-38A. With the CTS
  * flag, an input longer than one block has its last two blocks handled by
  * ciphertext stealing in the Kerberos arrangement ("CS3" in the Addendum to
  * NIST SP 800-38A): the last two ciphertext blocks are always swapped, even
  * when the length is a multiple of 16, and the final block is cut to the
  * length of the final plaintext piece. An input of at most one block is
  * plain CBC and must be exactly 0 or 16 bytes long.
  */
module Cbc {
  import opened Bytes
  import opened Errors

  /** `gpg_err_make(GPG_ERR_SOURCE_GCRYPT, GPG_ERR_INV_LENGTH)`: source 1 in
    * bits 24 and up, code 139. */
  const InvalidLengthError: nat := 0x100_0000 + 139

  /** The block decryption undoes the block encryption. */
  ghost predicate Inverts(E: Block -> Block, D: Block -> Block)
  {
    forall b :: D(E(b)) == b
  }

  /** Chaining: each plaintext block is XORed with the previous ciphertext
    * block (the IV for the first) and encrypted. */
  function CbcEncrypt(E: Block -> Block, iv: Block, p: seq<Byte>): (c: seq<Byte>)
    requires |p| % 16 == 0
    ensures |c| == |p|
    decreases |p|
  {
    if p == [] then []
    else
      var c0: Block := E(Xor(p[..16], iv));
      c0 + CbcEncrypt(E, c0, p[16..])
  }

  /** The IV register after chaining over `p`: its last ciphertext block. */
  function ChainState(E: Block -> Block, iv: Block, p: seq<Byte>): Block
    requires |p| % 16 == 0
    decreases |p|
  {
    if p == [] then iv else ChainState(E, E(Xor(p[..16], iv)), p[16..])
  }

  /** Each ciphertext block is decrypted and XORed with the ciphertext block
    * before it (the IV for the first). */
  function CbcDecrypt(D: Block -> Block, iv: Block, c: seq<Byte>): (p: seq<Byte>)
    requires |c| % 16 == 0
    ensures |p| == |c|
    decreases |c|
  {
    if c == [] then []
    else
      var c0: Block := c[..16];
      Xor(D(c0), iv) + CbcDecrypt(D, c0, c[16..])
  }

  /** The chain state is the last block written, or the IV when nothing was. */
  lemma {:induction false} ChainStateIsLastBlock(E: Block -> Block, iv: Block, p: seq<Byte>)
    requires |p| % 16 == 0
    ensures |p| == 0 ==> ChainState(E, iv, p) == iv
    ensures |p| > 0 ==> ChainState(E, iv, p) == CbcEncrypt(E, iv, p)[|p| - 16..]
    decreases |p|
  {
    if p != [] {
      var c0: Block := E(Xor(p[..16], iv));
      var rest := p[16..];
      ChainStateIsLastBlock(E, c0, rest);
      var c := CbcEncrypt(E, iv, p);
      assert c == c0 + CbcEncrypt(E, c0, rest);
      if rest != [] {
        assert c[|p| - 16..] == CbcEncrypt(E, c0, rest)[|rest| - 16..];
      }
    }
  }

  /** CBC decryption inverts CBC encryption under the same IV. */
  lemma {:induction false} CbcRoundTrip(E: Block -> Block, D: Block -> Block, iv: Block, p: seq<Byte>)
    requires Inverts(E, D) && |p| % 16 == 0
    ensures CbcDecrypt(D, iv, CbcEncrypt(E, iv, p)) == p
    decreases |p|
  {
    if p != [] {
      var p0, rest := p[..16], p[16..];
      var c0: Block := E(Xor(p0, iv));
      var c := CbcEncrypt(E, iv, p);
      var tail := CbcEncrypt(E, c0, rest);
      assert c == c0 + tail;
      assert c[..16] == c0 && c[16..] == tail;
      CbcRoundTrip(E, D, c0, rest);
      XorCancel(p0, iv);
      assert CbcDecrypt(D, iv, c) == Xor(D(c0), iv) + CbcDecrypt(D, c0, tail);
      assert p == p0 + rest;
    }
  }

  /** Only the first decrypted block depends on the IV. */
  lemma CbcDecryptIvLocal(D: Block -> Block, iv1: Block, iv2: Block, c: seq<Byte>)
    requires |c| % 16 == 0 && |c| >= 16
    ensures CbcDecrypt(D, iv1, c)[16..] == CbcDecrypt(D, iv2, c)[16..]
  {
    var c0: Block := c[..16];
    var rest := CbcDecrypt(D, c0, c[16..]);
    assert CbcDecrypt(D, iv1, c)[16..] == rest;
    assert CbcDecrypt(D, iv2, c)[16..] == rest;
  }

  /** The length of the final plaintext piece, from 1 to 16 bytes. */
  function TailLength(n: nat): (r: nat)
    requires n > 0
    ensures 1 <= r <= 16
    ensures n >= r && (n - r) % 16 == 0
  {
    if n % 16 == 0 then 16 else n % 16
  }

  /** The length of the part before the last two pieces, passed through plain CBC. */
  function HeadLength(n: nat): (h: nat)
    requires n > 16
    ensures h % 16 == 0 && h + 16 + TailLength(n) == n
  {
    n - TailLength(n) - 16
  }

  /**
    * Stealing over the last full block and the final piece `t`, chained on
    * `s`: the last full block gives `cm`; the final piece, padded with zeros,
    * is chained on `cm` and written in its place; `cm` is then cut to the
    * final piece's length and written last.
    */
  function StealEncrypt(E: Block -> Block, s: Block, t: seq<Byte>): (c: seq<Byte>)
    requires 16 < |t| <= 32
    ensures |c| == |t|
  {
    var r := |t| - 16;
    var cm: Block := E(Xor(t[..16], s));
    var last: Block := E(Xor(t[16..] + Zeros(16 - r), cm));
    last + cm[..r]
  }

  /**
    * The inverse of stealing, given the ciphertext block `prev` before the
    * pair. Decrypting the swapped-in block gives the final piece XORed with
    * `cm`; its bytes beyond the final piece are `cm`'s lost tail, which
    * restores `cm`, and `cm` decrypts to the last full block.
    */
  function StealDecrypt(D: Block -> Block, prev: Block, u: seq<Byte>): (t: seq<Byte>)
    requires 16 < |u| <= 32
    ensures |t| == |u|
  {
    var r := |u| - 16;
    var x: Block := D(u[..16]);
    var cn := u[16..];
    var cm: Block := cn + x[r..];
    Xor(D(cm), prev) + Xor(x[..r], cn)
  }

  /** Ciphertext stealing for an input longer than one block: the head is
    * chained normally and the last two pieces are stolen. */
  function CtsEncrypt(E: Block -> Block, iv: Block, p: seq<Byte>): (c: seq<Byte>)
    requires |p| > 16
    ensures |c| == |p|
  {
    var h := HeadLength(|p|);
    CbcEncrypt(E, iv, p[..h]) + StealEncrypt(E, ChainState(E, iv, p[..h]), p[h..])
  }

  function CtsDecrypt(D: Block -> Block, iv: Block, q: seq<Byte>): (p: seq<Byte>)
    requires |q| > 16
    ensures |p| == |q|
  {
    var h := HeadLength(|q|);
    var prev: Block := if h == 0 then iv else q[h - 16..h];
    CbcDecrypt(D, iv, q[..h]) + StealDecrypt(D, prev, q[h..])
  }

  /** The swapped-in block decrypts to the final piece, padded, XORed with `cm`. */
  lemma StealLastPiece(E: Block -> Block, D: Block -> Block, cm: Block, tail: seq<Byte>)
    requires Inverts(E, D) && 1 <= |tail| <= 16
    ensures var r := |tail|;
            var x := D(E(Xor(tail + Zeros(16 - r), cm)));
            Xor(x[..r], cm[..r]) == tail && cm[..r] + x[r..] == cm
  {
    var r := |tail|;
    var padded := tail + Zeros(16 - r);
    var x := D(E(Xor(padded, cm)));
    assert x == Xor(padded, cm);
    var y := Xor(x[..r], cm[..r]);
    forall i | 0 <= i < r ensures y[i] == tail[i] {
      assert y[i] == (padded[i] ^ cm[i]) ^ cm[i];
    }
    var z := cm[..r] + x[r..];
    forall i | r <= i < 16 ensures z[i] == cm[i] {
      assert padded[i] == 0;
      assert z[i] == 0 ^ cm[i];
    }
  }

  /** Undoing the stealing on the same chain state gives the two pieces back. */
  lemma StealRoundTrip(E: Block -> Block, D: Block -> Block, s: Block, t: seq<Byte>)
    requires Inverts(E, D) && 16 < |t| <= 32
    ensures StealDecrypt(D, s, StealEncrypt(E, s, t)) == t
  {
    var r := |t| - 16;
    var pm, pt := t[..16], t[16..];
    var cm: Block := E(Xor(pm, s));
    var last: Block := E(Xor(pt + Zeros(16 - r), cm));
    var u := last + cm[..r];
    assert StealEncrypt(E, s, t) == u;
    var x: Block := D(u[..16]);
    var cn := u[16..];
    assert u[..16] == last && cn == cm[..r];
    StealLastPiece(E, D, cm, pt);
    var cmr: Block := cn + x[r..];
    assert cmr == cm;
    var front := Xor(D(cmr), s);
    XorCancel(pm, s);
    assert front == pm;
    var back := Xor(x[..r], cn);
    assert back == pt;
    assert StealDecrypt(D, s, u) == front + back;
    assert t == pm + pt;
  }

  /** Ciphertext-stealing decryption inverts ciphertext-stealing encryption. */
  lemma CtsRoundTrip(E: Block -> Block, D: Block -> Block, iv: Block, p: seq<Byte>)
    requires Inverts(E, D) && |p| > 16
    ensures CtsDecrypt(D, iv, CtsEncrypt(E, iv, p)) == p
  {
    var h := HeadLength(|p|);
    var ph, pt := p[..h], p[h..];
    var head := CbcEncrypt(E, iv, ph);
    var s := ChainState(E, iv, ph);
    var stolen := StealEncrypt(E, s, pt);
    var q := CtsEncrypt(E, iv, p);
    assert q == head + stolen;
    assert q[..h] == head && q[h..] == stolen;
    CbcRoundTrip(E, D, iv, ph);
    ChainStateIsLastBlock(E, iv, ph);
    var prev: Block := if h == 0 then iv else q[h - 16..h];
    assert prev == s;
    StealRoundTrip(E, D, s, pt);
    assert p == ph + pt;
  }

  /** Only the first block of the stolen pair depends on the block before it. */
  lemma StealDecryptPrevLocal(D: Block -> Block, prev1: Block, prev2: Block, u: seq<Byte>)
    requires 16 < |u| <= 32
    ensures StealDecrypt(D, prev1, u)[16..] == StealDecrypt(D, prev2, u)[16..]
  {
    var r := |u| - 16;
    var x: Block := D(u[..16]);
    var back := Xor(x[..r], u[16..]);
    var cm: Block := u[16..] + x[r..];
    var f1, f2 := Xor(D(cm), prev1), Xor(D(cm), prev2);
    assert StealDecrypt(D, prev1, u) == f1 + back;
    assert StealDecrypt(D, prev2, u) == f2 + back;
    assert (f1 + back)[16..] == back;
    assert (f2 + back)[16..] == back;
  }

  /** With ciphertext stealing too, only the first decrypted block depends on the IV. */
  lemma CtsDecryptIvLocal(D: Block -> Block, iv1: Block, iv2: Block, q: seq<Byte>)
    requires |q| > 16
    ensures CtsDecrypt(D, iv1, q)[16..] == CtsDecrypt(D, iv2, q)[16..]
  {
    var h := HeadLength(|q|);
    var a, b := CtsDecrypt(D, iv1, q), CtsDecrypt(D, iv2, q);
    if h == 0 {
      assert q[..h] == [] && q[h..] == q;
      assert a == StealDecrypt(D, iv1, q);
      assert b == StealDecrypt(D, iv2, q);
      StealDecryptPrevLocal(D, iv1, iv2, q);
    } else {
      var rest := StealDecrypt(D, q[h - 16..h], q[h..]);
      var h1, h2 := CbcDecrypt(D, iv1, q[..h]), CbcDecrypt(D, iv2, q[..h]);
      CbcDecryptIvLocal(D, iv1, iv2, q[..h]);
      assert a == h1 + rest;
      assert b == h2 + rest;
      DropFirstBlock(h1, rest);
      DropFirstBlock(h2, rest);
    }
  }

  lemma DropFirstBlock(a: seq<Byte>, b: seq<Byte>)
    requires |a| >= 16
    ensures (a + b)[16..] == a[16..] + b
  {
  }

  /** The length check of `gcry_cipher_encrypt`/`gcry_cipher_decrypt` on a CTS
    * handle: a partial block is only allowed after at least one full block. */
  predicate LengthAccepted(n: nat)
  {
    n % 16 == 0 || n > 16
  }

  /** `gcry_cipher_encrypt` on a freshly keyed handle whose IV is `iv`. */
  function CipherEncrypt(E: Block -> Block, iv: Block, p: seq<Byte>): (r: Result<seq<Byte>, nat>)
    ensures r.Err? <==> !LengthAccepted(|p|)
    ensures r.Err? ==> r.error == InvalidLengthError
    ensures r.Ok? ==> |r.value| == |p|
  {
    if !LengthAccepted(|p|) then Err(InvalidLengthError)
    else if |p| > 16 then Ok(CtsEncrypt(E, iv, p))
    else Ok(CbcEncrypt(E, iv, p))
  }

  /** `gcry_cipher_decrypt` on a freshly keyed handle whose IV is `iv`. */
  function CipherDecrypt(D: Block -> Block, iv: Block, c: seq<Byte>): (r: Result<seq<Byte>, nat>)
    ensures r.Err? <==> !LengthAccepted(|c|)
    ensures r.Err? ==> r.error == InvalidLengthError
    ensures r.Ok? ==> |r.value| == |c|
  {
    if !LengthAccepted(|c|) then Err(InvalidLengthError)
    else if |c| > 16 then Ok(CtsDecrypt(D, iv, c))
    else Ok(CbcDecrypt(D, iv, c))
  }

  /** Decrypting under the IV used for encryption gives the plaintext back. */
  lemma CipherRoundTrip(E: Block -> Block, D: Block -> Block, iv: Block, p: seq<Byte>)
    requires Inverts(E, D) && LengthAccepted(|p|)
    ensures CipherEncrypt(E, iv, p).Ok?
    ensures CipherDecrypt(D, iv, CipherEncrypt(E, iv, p).value) == Ok(p)
  {
    if |p| > 16 {
      CtsRoundTrip(E, D, iv, p);
    } else {
      CbcRoundTrip(E, D, iv, p);
    }
  }

  /** Past the first block, decryption does not depend on the IV. */
  lemma CipherDecryptIvLocal(D: Block -> Block, iv1: Block, iv2: Block, c: seq<Byte>)
    requires |c| >= 16
    ensures CipherDecrypt(D, iv1, c).Ok? && CipherDecrypt(D, iv2, c).Ok?
    ensures CipherDecrypt(D, iv1, c).value[16..] == CipherDecrypt(D, iv2, c).value[16..]
  {
    if |c| > 16 {
      CtsDecryptIvLocal(D, iv1, iv2, c);
    } else {
      CbcDecryptIvLocal(D, iv1, iv2, c);
    }
  }

  /** Whatever IV decryption uses, the plaintext past the first block comes back. */
  lemma CipherRoundTripPastFirstBlock(E: Block -> Block, D: Block -> Block, iv: Block, other: Block, p: seq<Byte>)
    requires Inverts(E, D) && LengthAccepted(|p|) && |p| >= 16
    ensures CipherEncrypt(E, iv, p).Ok?
    ensures var c := CipherEncrypt(E, iv, p).value;
            CipherDecrypt(D, other, c).Ok? && CipherDecrypt(D, other, c).value[16..] == p[16..]
  {
    CipherRoundTrip(E, D, iv, p);
    CipherDecryptIvLocal(D, iv, other, CipherEncrypt(E, iv, p).value);
  }
}
