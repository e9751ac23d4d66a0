/**
  * The `Stirlitz` engine: hashing, in-memory encryption and decryption,
  * public-key S-expressions and the derivation of a user name and password
  * from Ed25519 keys. The class has no data members, so every operation is a
  * function of its arguments and of libgcrypt (`g`); fresh nonces and random
  * bytes are arguments too.
  */
module Stirlitz {
  import opened Bytes
  import opened Errors
  import opened Hex
  import opened SExps
  import opened Cbc
  import opened Gcrypt

  /** `hashString(data, GCRY_MD_BLAKE2S_256)`: the digest is copied out of the
    * handle one byte at a time into a vector reserved to the digest length. */
  method HashString(g: Backend, data: seq<Byte>) returns (r: seq<Byte>)
    ensures |r| == KeySize
    ensures r == g.blake2s(data)
  {
    var hsh := g.blake2s(data);
    var len := KeySize;
    r := [];
    var i := 0;
    while i < len
      invariant 0 <= i <= len && r == hsh[..i]
    {
      r := r + [hsh[i]];
      i := i + 1;
    }
  }

  /** The AES-256 key both data operations and both file operations use. */
  function DataKey(g: Backend, username: seq<Byte>, password: seq<Byte>): Key
  {
    g.blake2s(username + password)
  }

  /** `memcpy(dst + at, src, |src|)`. */
  method CopyInto(dst: array<Byte>, at: nat, src: seq<Byte>)
    requires at + |src| <= dst.Length
    modifies dst
    ensures dst[..] == old(dst[..at]) + src + old(dst[at + |src|..])
  {
    var k := 0;
    while k < |src|
      invariant 0 <= k <= |src|
      invariant dst[..at] == old(dst[..at])
      invariant dst[at..at + k] == src[..k]
      invariant dst[at + k..] == old(dst[at + k..])
    {
      dst[at + k] := src[k];
      k := k + 1;
      assert dst[at..at + k] == dst[at..at + k - 1] + [dst[at + k - 1]];
    }
    assert dst[..] == dst[..at] + dst[at..at + |src|] + dst[at + |src|..];
  }

  /** What `encryptData` returns when the IV nonce is `nonce` and the random
    * leading block is `lead`: the leading block and the data, encrypted as
    * one buffer. */
  function EncryptedData(g: Backend, username: seq<Byte>, password: seq<Byte>, data: seq<Byte>,
                         nonce: Block, lead: Block): (r: seq<Byte>)
    ensures |r| == |data| + 16
  {
    CipherEncrypt(Enc(g, DataKey(g, username, password)), nonce, lead + data).value
  }

  /** What `decryptData` returns when the IV nonce is `nonce`. */
  function DecryptedData(g: Backend, username: seq<Byte>, password: seq<Byte>, data: seq<Byte>,
                         nonce: Block): (r: seq<Byte>)
    ensures |data| < 16 ==> r == []
    ensures |data| >= 16 ==> |r| == |data| - 16
  {
    if |data| < 16 then []
    else CipherDecrypt(Dec(g, DataKey(g, username, password)), nonce, data).value[16..]
  }

  /**
    * `encryptData`: the IV is set from a nonce, the key is the digest of the
    * concatenated user name and password, and the buffer `in` is 16 random
    * bytes followed by the data. Its length is at least 16, so the cipher
    * call cannot fail on it.
    */
  method EncryptData(g: Backend, username: seq<Byte>, password: seq<Byte>, data: seq<Byte>,
                     nonce: Block, random: Block) returns (r: seq<Byte>)
    ensures |r| == |data| + 16
    ensures r == EncryptedData(g, username, password, data, nonce, random)
  {
    var hash := HashString(g, username + password);
    var key: Key := hash;
    var input := new Byte[16 + |data|];
    CopyInto(input, 0, random);
    CopyInto(input, 16, data);
    assert input[..] == random + data;
    var res := CipherEncrypt(Enc(g, key), nonce, input[..]);
    r := res.value;
  }

  /**
    * `decryptData`: input shorter than one block gives an empty result and no
    * error. Otherwise the input is decrypted under a fresh nonce IV and the
    * first block of the result, the random leading block, is erased.
    */
  method DecryptData(g: Backend, username: seq<Byte>, password: seq<Byte>, data: seq<Byte>,
                     nonce: Block) returns (r: seq<Byte>)
    ensures |data| < 16 ==> r == []
    ensures |data| >= 16 ==> |r| == |data| - 16
    ensures r == DecryptedData(g, username, password, data, nonce)
  {
    if |data| < 16 {
      return [];
    }
    var hash := HashString(g, username + password);
    var key: Key := hash;
    var res := CipherDecrypt(Dec(g, key), nonce, data);
    var result := new Byte[|data|];
    CopyInto(result, 0, res.value);
    assert result[..] == res.value;
    r := EraseFirstBlock(result);
  }

  /** `result.erase(result.begin(), result.begin() + block_sz)`: every byte
    * after the first block moves 16 places to the front, and the moved bytes
    * are what remains. */
  method EraseFirstBlock(a: array<Byte>) returns (r: seq<Byte>)
    requires a.Length >= 16
    modifies a
    ensures r == old(a[..])[16..]
    ensures a[..a.Length - 16] == r
    ensures a[a.Length - 16..] == old(a[a.Length - 16..])
  {
    ghost var full := a[..];
    var k := 0;
    while k < a.Length - 16
      invariant 0 <= k <= a.Length - 16
      invariant a[..k] == full[16..16 + k]
      invariant a[k..] == full[k..]
    {
      a[k] := a[k + 16];
      k := k + 1;
      assert a[..k] == a[..k - 1] + [a[k - 1]];
    }
    r := a[..k];
  }

  /** Only the concatenation of user name and password reaches the key, so
    * moving characters between the two changes nothing. */
  lemma KeyDependsOnConcatenation(g: Backend, u1: seq<Byte>, p1: seq<Byte>, u2: seq<Byte>, p2: seq<Byte>,
                                  data: seq<Byte>, nonce: Block, lead: Block)
    requires u1 + p1 == u2 + p2
    ensures EncryptedData(g, u1, p1, data, nonce, lead) == EncryptedData(g, u2, p2, data, nonce, lead)
    ensures DecryptedData(g, u1, p1, data, nonce) == DecryptedData(g, u2, p2, data, nonce)
  {
    assert DataKey(g, u1, p1) == DataKey(g, u2, p2);
  }

  /** `decryptData(u, p, encryptData(u, p, d)) == d`, although encryption and
    * decryption each draw their own IV nonce. */
  lemma DataRoundTrip(g: Backend, username: seq<Byte>, password: seq<Byte>, data: seq<Byte>,
                      nonce: Block, lead: Block, otherNonce: Block)
    requires Valid(g)
    ensures DecryptedData(g, username, password,
                          EncryptedData(g, username, password, data, nonce, lead), otherNonce) == data
  {
    var key := DataKey(g, username, password);
    var plain := lead + data;
    ValidInverts(g, key);
    CipherRoundTripPastFirstBlock(Enc(g, key), Dec(g, key), nonce, otherNonce, plain);
    assert plain[16..] == data;
  }

  // ----- public keys -----

  const PublicKeyToken: seq<Byte> := StringBytes("public-key")
  const EccToken: seq<Byte> := StringBytes("ecc")
  const CurveToken: seq<Byte> := StringBytes("curve")
  const Ed25519Name: seq<Byte> := StringBytes("Ed25519")
  const FlagsToken: seq<Byte> := StringBytes("flags")
  const EddsaName: seq<Byte> := StringBytes("eddsa")
  const QToken: seq<Byte> := StringBytes("q")

  const PublicKeyDataError: string := "Stirlitz::getPublicKeyString: incorrect data"
  const KeySizeError: string := "Stirlitz::generatePublicKeyExp: incorrect key size"

  /** `(public-key (ecc (curve Ed25519)(flags eddsa)(q k)))`. */
  function PublicKeyExp(k: seq<Byte>): SExp
  {
    List([Atom(PublicKeyToken),
          List([Atom(EccToken),
                List([Atom(CurveToken), Atom(Ed25519Name)]),
                List([Atom(FlagsToken), Atom(EddsaName)]),
                List([Atom(QToken), Atom(k)])])])
  }

  /**
    * `getPublicKeyString`: the `public-key` sub-list of a public key or key
    * pair, then its `q` sub-list, then element 1 of that, printed by `toHex`.
    * A missing sub-list gives "", a `q` without data throws.
    */
  function GetPublicKeyString(key: SExp): (r: Result<string, string>)
    ensures FirstHeaded(Nodes(key), PublicKeyToken).None? ==> r == Ok([])
    ensures var pk := FirstHeaded(Nodes(key), PublicKeyToken);
            pk.Some? ==>
              var q := FirstHeaded(Nodes(pk.value), QToken);
              (q.None? ==> r == Ok([])) &&
              (q.Some? && |q.value.items| > 1 && q.value.items[1].Atom? ==> r == Ok(HexOf(q.value.items[1].data))) &&
              (q.Some? && !(|q.value.items| > 1 && q.value.items[1].Atom?) ==> r == Err(PublicKeyDataError))
    ensures r.Ok? ==> |r.value| % 2 == 0 && AllLowerHexDigits(r.value)
    ensures r.Err? ==> r.error == PublicKeyDataError
  {
    FindTokenIsFirstNode(key, PublicKeyToken);
    match FindToken(key, PublicKeyToken)
    case None => Ok([])
    case Some(pk) =>
      FindTokenIsFirstNode(pk, QToken);
      match FindToken(pk, QToken)
      case None => Ok([])
      case Some(q) =>
        match NthData(q, 1)
        case None => Err(PublicKeyDataError)
        case Some(d) =>
          HexOfShape(d);
          Ok(HexOf(d))
  }

  /** `generatePublicKeyExp`: raw key bytes, not hexadecimal, and exactly 32 of them. */
  function GeneratePublicKeyExp(key: seq<Byte>): (r: Result<SExp, string>)
    ensures r.Err? <==> |key| != 32
    ensures r.Err? ==> r.error == KeySizeError
    ensures r.Ok? ==> FindToken(r.value, PublicKeyToken) == Some(r.value)
    ensures r.Ok? ==> r.value == PublicKeyExp(key)
  {
    if |key| != 32 then Err(KeySizeError) else Ok(PublicKeyExp(key))
  }

  /** A two-atom list whose head is not the token holds no match for it. */
  lemma PairHasNoToken(head: seq<Byte>, value: seq<Byte>, token: seq<Byte>)
    requires head != token
    ensures FindToken(List([Atom(head), Atom(value)]), token).None?
  {
    var items := [Atom(head), Atom(value)];
    var rest := items[1..];
    assert rest[0] == Atom(value) && rest[1..] == [];
    assert FindTokenIn(rest[1..], token).None?;
    assert FindToken(rest[0], token).None?;
    assert FindTokenIn(rest, token).None?;
    assert FindToken(items[0], token).None?;
    assert FindTokenIn(items, token).None?;
    assert !Headed(List(items), token);
  }

  /** `getPublicKeyString(generatePublicKeyExp(k)) == toHex(k)`: 64 digits that
    * `fromHex` turns back into `k`. */
  lemma PublicKeyRoundTrip(k: seq<Byte>)
    requires |k| == 32
    ensures GeneratePublicKeyExp(k).Ok?
    ensures GetPublicKeyString(GeneratePublicKeyExp(k).value) == Ok(HexOf(k))
    ensures |HexOf(k)| == 64 && AllHexDigits(HexOf(k)) && HexDecode(HexOf(k)) == k
  {
    var e := PublicKeyExp(k);
    var ecc := e.items[1];
    var curve, flags, q := ecc.items[1], ecc.items[2], ecc.items[3];
    assert FindToken(e, PublicKeyToken) == Some(e);
    assert |PublicKeyToken| == 10 && |EccToken| == 3 && |CurveToken| == 5 && |FlagsToken| == 5 && |QToken| == 1;
    PairHasNoToken(CurveToken, Ed25519Name, QToken);
    PairHasNoToken(FlagsToken, EddsaName, QToken);
    assert FindToken(q, QToken) == Some(q);
    assert FindTokenIn(ecc.items[3..], QToken) == Some(q);
    assert FindTokenIn(ecc.items[2..], QToken) == Some(q) by {
      assert ecc.items[2..][1..] == ecc.items[3..];
    }
    assert FindTokenIn(ecc.items[1..], QToken) == Some(q) by {
      assert ecc.items[1..][1..] == ecc.items[2..];
    }
    assert FindToken(ecc.items[0], QToken).None?;
    assert FindTokenIn(ecc.items, QToken) == Some(q) by {
      assert ecc.items[1..] == ecc.items[1..];
    }
    assert FindToken(ecc, QToken) == Some(q);
    assert FindTokenIn(e.items[1..], QToken) == Some(q);
    assert FindToken(e.items[0], QToken).None?;
    assert FindTokenIn(e.items, QToken) == Some(q);
    assert FindToken(e, QToken) == Some(q);
    HexRoundTrip(k);
  }

  // ----- user name and password from Ed25519 keys -----

  /** A derived tuple: the first element is the user name, the second the password. */
  datatype Credentials = Credentials(username: seq<Byte>, password: seq<Byte>)

  const EcdhToken: seq<Byte> := StringBytes("ecdh")
  const SToken: seq<Byte> := StringBytes("s")

  const EncryptionPrefix: string := "Stirlitz::genUsernamePasswordEncryption:"
  const DecryptionPrefix: string := "Stirlitz::genUsernamePasswordDecryption:"

  /** A message made of a function's prefix, a space and what went wrong. */
  function Thrown(prefix: string, what: string): (m: string)
    requires |what| > 0
    ensures |m| > |prefix| + 1 && m[..|prefix| + 1] == prefix + " "
  {
    var m := prefix + " " + what;
    assert m[..|prefix| + 1] == prefix + " ";
    m
  }

  /** The shared value of `gcry_pk_encrypt(data, pkey)`: element 1 of the `s`
    * sub-list of its `ecdh` sub-list, when all of these are there. */
  function SharedSecret(g: Backend, data: SExp, pkey: SExp): Option<seq<Byte>>
  {
    match g.pkEncrypt(data, pkey)
    case Err(_) => None
    case Ok(enc) =>
      match FindToken(enc, EcdhToken)
      case None => None
      case Some(ecdh) =>
        match FindToken(ecdh, SToken)
        case None => None
        case Some(s) => NthData(s, 1)
  }

  /**
    * One of the two extractions both derivations make, with the exceptions it
    * throws: a failed `gcry_pk_encrypt` goes through `printGcryptError`; a
    * missing `ecdh` or `s` token throws "cannot find token(n)" (1 and 2 in the
    * first extraction, 3 and 4 in the second); a missing value throws
    * "incorrect value(1)" or "incorrect value(2)".
    */
  function SharedValue(g: Backend, data: SExp, pkey: SExp, prefix: string, step: nat): (r: Result<seq<Byte>, string>)
    requires step == 1 || step == 2
    ensures r.Ok? <==> SharedSecret(g, data, pkey).Some?
    ensures r.Ok? ==> r.value == SharedSecret(g, data, pkey).value
    ensures r.Err? ==> |r.error| > |prefix| && r.error[..|prefix| + 1] == prefix + " "
  {
    match g.pkEncrypt(data, pkey)
    case Err(err) => Err(ErrorMessage(g, err, prefix))
    case Ok(enc) =>
      match FindToken(enc, EcdhToken)
      case None => Err(Thrown(prefix, "cannot find token(" + [DigitChar(2 * step - 1)] + ")"))
      case Some(ecdh) =>
        match FindToken(ecdh, SToken)
        case None => Err(Thrown(prefix, "cannot find token(" + [DigitChar(2 * step)] + ")"))
        case Some(s) =>
          match NthData(s, 1)
          case None => Err(Thrown(prefix, "incorrect value(" + [DigitChar(step)] + ")"))
          case Some(v) => Ok(v)
  }

  /** `genUsernamePasswordEncryption`: the value for (own, own) is read first
    * and becomes the password; the value for (own, opponent) is the user name. */
  function GenUsernamePasswordEncryption(g: Backend, ownKeyPair: SExp, opponentKey: SExp): (r: Result<Credentials, string>)
    ensures r.Ok? <==> SharedSecret(g, ownKeyPair, ownKeyPair).Some? && SharedSecret(g, ownKeyPair, opponentKey).Some?
    ensures r.Ok? ==> r.value.username == SharedSecret(g, ownKeyPair, opponentKey).value
    ensures r.Ok? ==> r.value.password == SharedSecret(g, ownKeyPair, ownKeyPair).value
    ensures r.Err? ==> |r.error| > |EncryptionPrefix| && r.error[..|EncryptionPrefix| + 1] == EncryptionPrefix + " "
  {
    var password :- SharedValue(g, ownKeyPair, ownKeyPair, EncryptionPrefix, 1);
    var username :- SharedValue(g, ownKeyPair, opponentKey, EncryptionPrefix, 2);
    Ok(Credentials(username, password))
  }

  /** `genUsernamePasswordDecryption`: the value for (own, own) is read first
    * and becomes the user name; the value for (own, opponent) is the password. */
  function GenUsernamePasswordDecryption(g: Backend, ownKeyPair: SExp, opponentKey: SExp): (r: Result<Credentials, string>)
    ensures r.Ok? <==> SharedSecret(g, ownKeyPair, ownKeyPair).Some? && SharedSecret(g, ownKeyPair, opponentKey).Some?
    ensures r.Ok? ==> r.value.username == SharedSecret(g, ownKeyPair, ownKeyPair).value
    ensures r.Ok? ==> r.value.password == SharedSecret(g, ownKeyPair, opponentKey).value
    ensures r.Err? ==> |r.error| > |DecryptionPrefix| && r.error[..|DecryptionPrefix| + 1] == DecryptionPrefix + " "
  {
    var username :- SharedValue(g, ownKeyPair, ownKeyPair, DecryptionPrefix, 1);
    var password :- SharedValue(g, ownKeyPair, opponentKey, DecryptionPrefix, 2);
    Ok(Credentials(username, password))
  }

  /** For the same keys the two derivations succeed together and give the same
    * two values in opposite order. */
  lemma CredentialsSwapped(g: Backend, ownKeyPair: SExp, opponentKey: SExp)
    ensures GenUsernamePasswordEncryption(g, ownKeyPair, opponentKey).Ok? <==>
            GenUsernamePasswordDecryption(g, ownKeyPair, opponentKey).Ok?
    ensures GenUsernamePasswordEncryption(g, ownKeyPair, opponentKey).Ok? ==>
              var e := GenUsernamePasswordEncryption(g, ownKeyPair, opponentKey).value;
              GenUsernamePasswordDecryption(g, ownKeyPair, opponentKey).value == Credentials(e.password, e.username)
  {
  }
}
