/**
  * `Stirlitz::encryptFile` and `Stirlitz::decryptFile`. The file system is a
  * map from paths to contents, passed in and returned. A file is encrypted
  * chunk by chunk; every chunk gets its own IV nonce and its own random
  * leading block, and each encrypted chunk is exactly one record of the
  * decryption loop.
  *
  * The passes are stated over the cipher operation of the keyed handle
  * (`CipherOp`), so that what is proved about the loops rests only on the
  * length check of the handle and on decryption recovering what was
  * encrypted past the first block; `Gcrypt` proves both for the AES-256
  * CBC-CTS handles the engine opens.
  */
module FileCodec {
  import opened Bytes
  import opened Errors
  import opened Cbc
  import opened Gcrypt
  import opened Stirlitz

  type Path = string
  type FileSystem = map<Path, seq<Byte>>

  /** Plain bytes read per pass of the encryption loop (`buf_sz`). */
  const ChunkSize: nat := 10485744
  /** Encrypted bytes read per pass of the decryption loop (`buf_sz`). */
  const RecordSize: nat := 10485760

  const EncryptPrefix: string := "Stirlitz::encryptFile:"
  const EncryptOpenError: string := "Stirlitz::encryptFile: cannot open source file"
  const EncryptEmptyError: string := "Stirlitz::encryptFile: incorrect file"
  const DecryptPrefix: string := "Stirlitz::decryptFile:"
  const DecryptOpenError: string := "Stirlitz::decryptFile: cannot open source file"
  const DecryptShortError: string := "Stirlitz::decryptFile: incorrect file(1)"
  const DecryptRecordError: string := "Stirlitz::decryptFile: incorrect file"

  /** An encrypted chunk is one record: the chunk plus its leading block. */
  lemma ChunkFillsRecord()
    ensures ChunkSize + BlockSize == RecordSize
  {
  }

  function Min(a: nat, b: nat): nat
  {
    if a < b then a else b
  }

  /** The number of chunks of a file of `n` bytes. */
  function Chunks(n: nat): nat
  {
    (n + ChunkSize - 1) / ChunkSize
  }

  /** Why a decryption pass stops: the handle reports an error code, or the
    * decrypted buffer is shorter than one block. */
  datatype RecordError = CipherFailure(code: nat) | ShortRecord

  /** Bytes already written in front of what the rest of a loop produces. */
  function Prepend<E>(written: seq<Byte>, r: Result<seq<Byte>, E>): Result<seq<Byte>, E>
  {
    match r
    case Ok(rest) => Ok(written + rest)
    case Err(e) => Err(e)
  }

  /** Pass `i` of the encryption loop: nonce 2i is the IV, nonce 2i+1 the leading block. */
  function EncryptedChunk(enc: CipherOp, chunk: seq<Byte>, i: nat, nonce: nat -> Block): Result<seq<Byte>, nat>
  {
    enc(nonce(2 * i), nonce(2 * i + 1) + chunk)
  }

  /** What the encryption loop writes for `data` from pass `i` on, or the
    * error code of the pass that fails. */
  function EncryptedChunks(enc: CipherOp, data: seq<Byte>, i: nat, nonce: nat -> Block): Result<seq<Byte>, nat>
    decreases |data|
  {
    if data == [] then Ok([])
    else
      var sz := Min(ChunkSize, |data|);
      match EncryptedChunk(enc, data[..sz], i, nonce)
      case Err(e) => Err(e)
      case Ok(c) => Prepend(c, EncryptedChunks(enc, data[sz..], i + 1, nonce))
  }

  /** Pass `i` of the decryption loop: nonce `i` is the IV, and all but the
    * first block of the decrypted record is kept. */
  function DecryptedRecord(dec: CipherOp, record: seq<Byte>, i: nat, nonce: nat -> Block): Result<seq<Byte>, RecordError>
  {
    match dec(nonce(i), record)
    case Err(e) => Err(CipherFailure(e))
    case Ok(p) => if |p| < BlockSize then Err(ShortRecord) else Ok(p[BlockSize..])
  }

  /** What the decryption loop writes for `data` from pass `i` on, or why the
    * pass that fails stops. */
  function DecryptedRecords(dec: CipherOp, data: seq<Byte>, i: nat, nonce: nat -> Block): Result<seq<Byte>, RecordError>
    decreases |data|
  {
    if data == [] then Ok([])
    else
      var sz := Min(RecordSize, |data|);
      match DecryptedRecord(dec, data[..sz], i, nonce)
      case Err(e) => Err(e)
      case Ok(p) => Prepend(p, DecryptedRecords(dec, data[sz..], i + 1, nonce))
  }

  /** The destination `encryptFile` writes for a non-empty source, or the
    * error code that makes it remove the destination. */
  function EncryptedFile(g: Backend, username: seq<Byte>, password: seq<Byte>, data: seq<Byte>,
                         nonce: nat -> Block): Result<seq<Byte>, nat>
  {
    EncryptedChunks(Encryptor(g, DataKey(g, username, password)), data, 0, nonce)
  }

  /** The destination `decryptFile` writes for a source of at least 16 bytes,
    * or why it removes the destination. */
  function DecryptedFile(g: Backend, username: seq<Byte>, password: seq<Byte>, data: seq<Byte>,
                         nonce: nat -> Block): Result<seq<Byte>, RecordError>
  {
    DecryptedRecords(Decryptor(g, DataKey(g, username, password)), data, 0, nonce)
  }

  /** The message `decryptFile` throws when a pass fails. */
  function RecordErrorMessage(g: Backend, e: RecordError): string
  {
    match e
    case CipherFailure(code) => ErrorMessage(g, code, DecryptPrefix)
    case ShortRecord => DecryptRecordError
  }

  lemma ChunksStep(n: nat)
    ensures n == 0 ==> Chunks(n) == 0
    ensures 0 < n <= ChunkSize ==> Chunks(n) == 1
    ensures n > ChunkSize ==> Chunks(n) == 1 + Chunks(n - ChunkSize)
  {
  }

  /** A chunk with its leading block is longer than one block, so a handle
    * that checks lengths encrypts it, into as many bytes. */
  lemma ChunkEncrypts(enc: CipherOp, chunk: seq<Byte>, i: nat, nonce: nat -> Block)
    requires LengthChecked(enc) && |chunk| > 0
    ensures EncryptedChunk(enc, chunk, i, nonce).Ok?
    ensures |EncryptedChunk(enc, chunk, i, nonce).value| == |chunk| + 16
  {
    var p := nonce(2 * i + 1) + chunk;
    assert LengthAccepted(|p|);
    assert enc(nonce(2 * i), p).Ok? ==> |enc(nonce(2 * i), p).value| == |p|;
  }

  /** Encryption never fails on length, and the encrypted file is 16 bytes
    * longer per chunk: fsz + 16 * ceil(fsz / 10485744). */
  lemma {:induction false} EncryptedChunksOk(enc: CipherOp, data: seq<Byte>, i: nat, nonce: nat -> Block)
    requires LengthChecked(enc)
    ensures EncryptedChunks(enc, data, i, nonce).Ok?
    ensures |EncryptedChunks(enc, data, i, nonce).value| == |data| + 16 * Chunks(|data|)
    decreases |data|
  {
    ChunksStep(|data|);
    if data != [] {
      var sz := Min(ChunkSize, |data|);
      ChunkEncrypts(enc, data[..sz], i, nonce);
      EncryptedChunksOk(enc, data[sz..], i + 1, nonce);
      ChunksStep(|data[sz..]|);
    }
  }

  lemma RecordRemainder(n: nat)
    ensures n > RecordSize ==> n % RecordSize == (n - RecordSize) % RecordSize
    ensures n < RecordSize ==> n % RecordSize == n
    ensures RecordSize % 16 == 0 && RecordSize % RecordSize == 0
  {
  }

  /** One record under a handle that checks lengths: it fails exactly when it
    * is 1 to 15 bytes long, with `GPG_ERR_INV_LENGTH`, and is never short. */
  lemma RecordDecrypts(dec: CipherOp, record: seq<Byte>, i: nat, nonce: nat -> Block)
    requires LengthChecked(dec) && |record| > 0
    ensures DecryptedRecord(dec, record, i, nonce).Err? <==> |record| < 16
    ensures DecryptedRecord(dec, record, i, nonce).Err? ==>
              DecryptedRecord(dec, record, i, nonce).error == CipherFailure(InvalidLengthError)
  {
    var r := dec(nonce(i), record);
    assert r.Err? <==> !LengthAccepted(|record|);
    assert r.Ok? ==> |r.value| == |record|;
  }

  /** A record fails to decrypt exactly when it is 1 to 15 bytes long, which
    * can only be the last one; the error is then `GPG_ERR_INV_LENGTH`, and
    * the short-buffer check never fires. */
  lemma {:induction false} DecryptedRecordsError(dec: CipherOp, data: seq<Byte>, i: nat, nonce: nat -> Block)
    requires LengthChecked(dec)
    ensures DecryptedRecords(dec, data, i, nonce).Err? <==> 0 < |data| % RecordSize < 16
    ensures DecryptedRecords(dec, data, i, nonce).Err? ==>
              DecryptedRecords(dec, data, i, nonce).error == CipherFailure(InvalidLengthError)
    decreases |data|
  {
    if data != [] {
      var n := |data|;
      var sz := Min(RecordSize, n);
      var c := DecryptedRecord(dec, data[..sz], i, nonce);
      RecordDecrypts(dec, data[..sz], i, nonce);
      var tail := data[sz..];
      DecryptedRecordsError(dec, tail, i + 1, nonce);
      var rest := DecryptedRecords(dec, tail, i + 1, nonce);
      var whole := DecryptedRecords(dec, data, i, nonce);
      RecordRemainder(n);
      if n > RecordSize {
        assert c.Ok?;
        assert |tail| == n - RecordSize;
        assert whole == Prepend(c.value, rest);
      } else {
        assert tail == [] && rest == Ok([]);
        assert whole.Err? <==> c.Err?;
        assert whole.Err? ==> whole.error == c.error;
      }
    }
  }

  /** How the first record of an encrypted file lines up with its first chunk. */
  lemma EncryptedChunksSplit(enc: CipherOp, data: seq<Byte>, i: nat, nonce: nat -> Block)
    requires LengthChecked(enc) && data != []
    ensures EncryptedChunks(enc, data, i, nonce).Ok?
    ensures var sz := Min(ChunkSize, |data|);
            var whole := EncryptedChunks(enc, data, i, nonce).value;
            var n := Min(RecordSize, |whole|);
            EncryptedChunk(enc, data[..sz], i, nonce).Ok? &&
            EncryptedChunks(enc, data[sz..], i + 1, nonce).Ok? &&
            whole[..n] == EncryptedChunk(enc, data[..sz], i, nonce).value &&
            whole[n..] == EncryptedChunks(enc, data[sz..], i + 1, nonce).value
  {
    var sz := Min(ChunkSize, |data|);
    ChunkEncrypts(enc, data[..sz], i, nonce);
    EncryptedChunksOk(enc, data[sz..], i + 1, nonce);
    var c0 := EncryptedChunk(enc, data[..sz], i, nonce).value;
    var rest := EncryptedChunks(enc, data[sz..], i + 1, nonce).value;
    var whole := EncryptedChunks(enc, data, i, nonce);
    assert whole == Ok(c0 + rest);
    if |data| <= ChunkSize {
      assert data[sz..] == [];
      assert rest == [];
    } else {
      assert |c0| == RecordSize;
    }
  }

  /** One encrypted chunk decrypts, under any IV, to the chunk. */
  lemma ChunkRoundTrip(enc: CipherOp, dec: CipherOp, chunk: seq<Byte>, i: nat, j: nat,
                       encNonce: nat -> Block, decNonce: nat -> Block)
    requires RecoversPastFirstBlock(enc, dec) && |chunk| > 0
    ensures EncryptedChunk(enc, chunk, i, encNonce).Ok?
    ensures DecryptedRecord(dec, EncryptedChunk(enc, chunk, i, encNonce).value, j, decNonce) == Ok(chunk)
  {
    var p := encNonce(2 * i + 1) + chunk;
    var c := enc(encNonce(2 * i), p);
    assert c.Ok? && dec(decNonce(j), c.value).Ok? && dec(decNonce(j), c.value).value[16..] == p[16..];
    assert p[16..] == chunk;
  }

  /** A first record that decrypts, followed by records that decrypt. */
  lemma DecryptedRecordsCons(dec: CipherOp, whole: seq<Byte>, j: nat, nonce: nat -> Block, n: nat,
                             first: seq<Byte>, rest: seq<Byte>)
    requires whole != [] && n == Min(RecordSize, |whole|)
    requires DecryptedRecord(dec, whole[..n], j, nonce) == Ok(first)
    requires DecryptedRecords(dec, whole[n..], j + 1, nonce) == Ok(rest)
    ensures DecryptedRecords(dec, whole, j, nonce) == Ok(first + rest)
  {
  }

  /** Decrypting an encrypted file gives the original bytes back, whatever
    * nonces either side draws. */
  lemma {:induction false} FileRoundTrip(enc: CipherOp, dec: CipherOp, data: seq<Byte>,
                                         i: nat, j: nat, encNonce: nat -> Block, decNonce: nat -> Block)
    requires LengthChecked(enc) && RecoversPastFirstBlock(enc, dec)
    ensures EncryptedChunks(enc, data, i, encNonce).Ok?
    ensures DecryptedRecords(dec, EncryptedChunks(enc, data, i, encNonce).value, j, decNonce) == Ok(data)
    decreases |data|
  {
    EncryptedChunksOk(enc, data, i, encNonce);
    if data != [] {
      var sz := Min(ChunkSize, |data|);
      var chunk, later := data[..sz], data[sz..];
      var whole := EncryptedChunks(enc, data, i, encNonce).value;
      EncryptedChunksSplit(enc, data, i, encNonce);
      var n := Min(RecordSize, |whole|);
      ChunkRoundTrip(enc, dec, chunk, i, j, encNonce, decNonce);
      FileRoundTrip(enc, dec, later, i + 1, j + 1, encNonce, decNonce);
      DecryptedRecordsCons(dec, whole, j, decNonce, n, chunk, later);
      assert chunk + later == data;
    }
  }

  /** With a valid backend and the same credentials, a non-empty file encrypts
    * into at least 17 bytes, which decrypt back to the file. */
  lemma FileDecryptsBack(g: Backend, username: seq<Byte>, password: seq<Byte>, data: seq<Byte>,
                         encNonce: nat -> Block, decNonce: nat -> Block)
    requires Valid(g) && |data| > 0
    ensures EncryptedFile(g, username, password, data, encNonce).Ok?
    ensures |EncryptedFile(g, username, password, data, encNonce).value| > BlockSize
    ensures DecryptedFile(g, username, password, EncryptedFile(g, username, password, data, encNonce).value, decNonce)
            == Ok(data)
  {
    var key := DataKey(g, username, password);
    HandlesCheckLength(g, key);
    HandlesRecover(g, key);
    EncryptedChunksOk(Encryptor(g, key), data, 0, encNonce);
    ChunksStep(|data|);
    FileRoundTrip(Encryptor(g, key), Decryptor(g, key), data, 0, 0, encNonce, decNonce);
  }

  /** One pass of the encryption loop, on the unread part of the file: the
    * bytes written so far followed by what the rest of the loop writes stay
    * the whole encrypted file, and a failing pass fails the whole file. */
  lemma EncryptLoopStep(enc: CipherOp, data: seq<Byte>, readB: nat, sz: nat, i: nat, nonce: nat -> Block,
                        written: seq<Byte>, r: Result<seq<Byte>, nat>)
    requires readB < |data| && sz == Min(ChunkSize, |data| - readB)
    requires Prepend(written, EncryptedChunks(enc, data[readB..], i, nonce)) == EncryptedChunks(enc, data, 0, nonce)
    requires r == EncryptedChunk(enc, data[readB..readB + sz], i, nonce)
    ensures r.Ok? ==>
              Prepend(written + r.value, EncryptedChunks(enc, data[readB + sz..], i + 1, nonce)) ==
              EncryptedChunks(enc, data, 0, nonce)
    ensures r.Err? ==> EncryptedChunks(enc, data, 0, nonce) == Err(r.error)
  {
    var rest := data[readB..];
    assert rest[..sz] == data[readB..readB + sz];
    assert rest[sz..] == data[readB + sz..];
    if r.Ok? {
      var later := EncryptedChunks(enc, data[readB + sz..], i + 1, nonce);
      assert EncryptedChunks(enc, rest, i, nonce) == Prepend(r.value, later);
      if later.Ok? {
        assert written + (r.value + later.value) == (written + r.value) + later.value;
      }
    }
  }

  /** One pass of the decryption loop, on the unread part of the file. */
  lemma DecryptLoopStep(dec: CipherOp, data: seq<Byte>, readB: nat, size: nat, i: nat, nonce: nat -> Block,
                        written: seq<Byte>, r: Result<seq<Byte>, RecordError>)
    requires readB < |data| && size == Min(RecordSize, |data| - readB)
    requires Prepend(written, DecryptedRecords(dec, data[readB..], i, nonce)) == DecryptedRecords(dec, data, 0, nonce)
    requires r == DecryptedRecord(dec, data[readB..readB + size], i, nonce)
    ensures r.Ok? ==>
              Prepend(written + r.value, DecryptedRecords(dec, data[readB + size..], i + 1, nonce)) ==
              DecryptedRecords(dec, data, 0, nonce)
    ensures r.Err? ==> DecryptedRecords(dec, data, 0, nonce) == Err(r.error)
  {
    var rest := data[readB..];
    assert rest[..size] == data[readB..readB + size];
    assert rest[size..] == data[readB + size..];
    if r.Ok? {
      var later := DecryptedRecords(dec, data[readB + size..], i + 1, nonce);
      assert DecryptedRecords(dec, rest, i, nonce) == Prepend(r.value, later);
      if later.Ok? {
        assert written + (r.value + later.value) == (written + r.value) + later.value;
      }
    }
  }

  /** The loop's start: nothing written, all of the file unread. */
  lemma LoopStart<E>(whole: Result<seq<Byte>, E>)
    ensures Prepend([], whole) == whole
  {
    if whole.Ok? {
      assert [] + whole.value == whole.value;
    }
  }

  /** One pass of the `encryptFile` loop: the buffer holds the leading nonce
    * block and then the next min(10485744, remaining) bytes of the source,
    * and is encrypted under the pass's IV nonce. */
  method EncryptPass(enc: CipherOp, data: seq<Byte>, readB: nat, i: nat, nonce: nat -> Block)
    returns (sz: nat, r: Result<seq<Byte>, nat>)
    requires readB < |data|
    ensures sz == Min(ChunkSize, |data| - readB)
    ensures r == EncryptedChunk(enc, data[readB..readB + sz], i, nonce)
  {
    var iv := nonce(2 * i);
    var dif := |data| - readB;
    if ChunkSize < dif {
      sz := ChunkSize;
    } else {
      sz := dif;
    }
    var buf := new Byte[sz + 16];
    CopyInto(buf, 0, nonce(2 * i + 1));
    CopyInto(buf, 16, data[readB..readB + sz]);
    assert buf[..] == nonce(2 * i + 1) + data[readB..readB + sz];
    r := enc(iv, buf[..]);
  }

  /** The loop of `encryptFile` over a non-empty source, with the destination
    * already created empty: every pass appends one encrypted chunk; a pass
    * whose encryption fails removes the destination. */
  method EncryptPasses(g: Backend, enc: CipherOp, fs: FileSystem, result: Path, data: seq<Byte>, nonce: nat -> Block)
    returns (disk: FileSystem, outcome: Outcome)
    requires |data| > 0
    ensures match EncryptedChunks(enc, data, 0, nonce)
            case Ok(c) => disk == fs[result := c] && outcome == Pass
            case Err(e) => disk == fs - {result} && outcome == Fail(ErrorMessage(g, e, EncryptPrefix))
  {
    ghost var whole := EncryptedChunks(enc, data, 0, nonce);
    ghost var written: seq<Byte> := [];
    disk := fs[result := []];
    assert data[0..] == data;
    LoopStart(whole);
    var fsz := |data|;
    var readB := 0;
    var i := 0;
    while readB < fsz
      invariant 0 <= readB <= fsz
      invariant disk == fs[result := written]
      invariant Prepend(written, EncryptedChunks(enc, data[readB..], i, nonce)) == whole
      decreases fsz - readB
    {
      var sz, r := EncryptPass(enc, data, readB, i, nonce);
      EncryptLoopStep(enc, data, readB, sz, i, nonce, written, r);
      if r.Err? {
        assert disk - {result} == fs - {result};
        return disk - {result}, Fail(ErrorMessage(g, r.error, EncryptPrefix));
      }
      written := written + r.value;
      disk := disk[result := disk[result] + r.value];
      readB := readB + sz;
      i := i + 1;
    }
    assert data[readB..] == [];
    assert EncryptedChunks(enc, data[readB..], i, nonce) == Ok([]);
    assert written + [] == written;
    outcome := Pass;
  }

  /**
    * `encryptFile`. A missing source changes nothing; otherwise the
    * destination is removed and created empty, and an empty source leaves it
    * so. Otherwise the destination receives the encrypted chunks, or is
    * removed when a pass fails.
    */
  method EncryptFile(g: Backend, fs: FileSystem, source: Path, result: Path,
                     username: seq<Byte>, password: seq<Byte>, nonce: nat -> Block)
    returns (disk: FileSystem, outcome: Outcome)
    ensures source !in fs ==> disk == fs && outcome == Fail(EncryptOpenError)
    ensures source in fs && |fs[source]| == 0 ==> disk == fs[result := []] && outcome == Fail(EncryptEmptyError)
    ensures source in fs && |fs[source]| > 0 ==>
              match EncryptedFile(g, username, password, fs[source], nonce)
              case Ok(c) => disk == fs[result := c] && outcome == Pass
              case Err(e) => disk == fs - {result} && outcome == Fail(ErrorMessage(g, e, EncryptPrefix))
  {
    var hash := HashString(g, username + password);
    var key: Key := hash;
    assert key == DataKey(g, username, password);
    if source !in fs {
      return fs, Fail(EncryptOpenError);
    }
    var data := fs[source];
    if |data| == 0 {
      return fs[result := []], Fail(EncryptEmptyError);
    }
    disk, outcome := EncryptPasses(g, Encryptor(g, key), fs, result, data, nonce);
  }

  /** One pass of the `decryptFile` loop: the buffer holds the next
    * min(10485760, remaining) bytes of the source and is decrypted under the
    * pass's IV nonce; a decrypted buffer shorter than a block is refused. */
  method DecryptPass(dec: CipherOp, data: seq<Byte>, readB: nat, i: nat, nonce: nat -> Block)
    returns (size: nat, r: Result<seq<Byte>, RecordError>)
    requires readB < |data|
    ensures size == Min(RecordSize, |data| - readB)
    ensures r == DecryptedRecord(dec, data[readB..readB + size], i, nonce)
  {
    var iv := nonce(i);
    var dif := |data| - readB;
    if RecordSize < dif {
      size := RecordSize;
    } else {
      size := dif;
    }
    var buf := new Byte[size];
    CopyInto(buf, 0, data[readB..readB + size]);
    assert buf[..] == data[readB..readB + size];
    var res := dec(iv, buf[..]);
    if res.Err? {
      r := Err(CipherFailure(res.error));
    } else if |res.value| < BlockSize {
      r := Err(ShortRecord);
    } else {
      r := Ok(res.value[BlockSize..]);
    }
  }

  /** The loop of `decryptFile` over a source of at least 16 bytes, with the
    * destination already created empty: every pass appends one decrypted
    * record; a pass that fails removes the destination. */
  method DecryptPasses(g: Backend, dec: CipherOp, fs: FileSystem, result: Path, data: seq<Byte>, nonce: nat -> Block)
    returns (disk: FileSystem, outcome: Outcome)
    ensures match DecryptedRecords(dec, data, 0, nonce)
            case Ok(plain) => disk == fs[result := plain] && outcome == Pass
            case Err(e) => disk == fs - {result} && outcome == Fail(RecordErrorMessage(g, e))
  {
    ghost var whole := DecryptedRecords(dec, data, 0, nonce);
    ghost var written: seq<Byte> := [];
    disk := fs[result := []];
    assert data[0..] == data;
    LoopStart(whole);
    var fsz := |data|;
    var readB := 0;
    var i := 0;
    while readB < fsz
      invariant 0 <= readB <= fsz
      invariant disk == fs[result := written]
      invariant Prepend(written, DecryptedRecords(dec, data[readB..], i, nonce)) == whole
      decreases fsz - readB
    {
      var size, r := DecryptPass(dec, data, readB, i, nonce);
      DecryptLoopStep(dec, data, readB, size, i, nonce, written, r);
      if r.Err? {
        assert disk - {result} == fs - {result};
        return disk - {result}, Fail(RecordErrorMessage(g, r.error));
      }
      written := written + r.value;
      disk := disk[result := disk[result] + r.value];
      readB := readB + size;
      i := i + 1;
    }
    assert data[readB..] == [];
    assert DecryptedRecords(dec, data[readB..], i, nonce) == Ok([]);
    assert written + [] == written;
    outcome := Pass;
  }

  /**
    * `decryptFile`. A missing source changes nothing; otherwise the
    * destination is removed and created empty, and a source shorter than 16
    * bytes leaves it so. Otherwise the destination receives the decrypted
    * records, or is removed when a pass fails.
    */
  method DecryptFile(g: Backend, fs: FileSystem, source: Path, result: Path,
                     username: seq<Byte>, password: seq<Byte>, nonce: nat -> Block)
    returns (disk: FileSystem, outcome: Outcome)
    ensures source !in fs ==> disk == fs && outcome == Fail(DecryptOpenError)
    ensures source in fs && |fs[source]| < 16 ==> disk == fs[result := []] && outcome == Fail(DecryptShortError)
    ensures source in fs && |fs[source]| >= 16 ==>
              match DecryptedFile(g, username, password, fs[source], nonce)
              case Ok(plain) => disk == fs[result := plain] && outcome == Pass
              case Err(e) => disk == fs - {result} && outcome == Fail(RecordErrorMessage(g, e))
  {
    var hash := HashString(g, username + password);
    var key: Key := hash;
    assert key == DataKey(g, username, password);
    if source !in fs {
      return fs, Fail(DecryptOpenError);
    }
    var data := fs[source];
    if |data| < BlockSize {
      return fs[result := []], Fail(DecryptShortError);
    }
    disk, outcome := DecryptPasses(g, Decryptor(g, key), fs, result, data, nonce);
  }

  /** Encrypting a non-empty file and decrypting the result into another path
    * reproduces the file there. */
  method EncryptThenDecryptFile(g: Backend, fs: FileSystem, plain: Path, encrypted: Path, decrypted: Path,
                                username: seq<Byte>, password: seq<Byte>,
                                encNonce: nat -> Block, decNonce: nat -> Block)
    returns (disk: FileSystem, first: Outcome, second: Outcome)
    requires Valid(g) && plain in fs && |fs[plain]| > 0
    ensures first == Pass && second == Pass
    ensures decrypted in disk && disk[decrypted] == fs[plain]
  {
    FileDecryptsBack(g, username, password, fs[plain], encNonce, decNonce);
    var afterEncrypt;
    afterEncrypt, first := EncryptFile(g, fs, plain, encrypted, username, password, encNonce);
    disk, second := DecryptFile(g, afterEncrypt, encrypted, decrypted, username, password, decNonce);
  }
}
