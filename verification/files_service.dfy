/** The stateful half of `FilesService`: uploading a file records one row in the
    record store; deleting a file by its public token removes the row and then,
    as far as it can, the stored bytes.

    The record store is a map from public token to row; the blob store is the
    set of paths at which stored bytes exist. Each operation maps a state to a
    new state and a result. The store-generated columns of a new row (primary
    key, token, creation time), the parser of requested dates, the clock, the
    configured size limit and the outcome of the file-system unlink are inputs. */
module FilesService {
  import opened Wrappers
  import opened FilesPolicy
  import Text
  import NodePath

  type Token = string
  type UserId = string
  type Path = string
  type RecordId = string

  /** One row of the `file` table. */
  datatype FileRecord = FileRecord(
    id: RecordId,
    token: Token,
    originalName: string,
    mimeType: string,
    size: nat,
    storagePath: Path,
    expiresAt: Instant,
    userId: UserId,
    createdAt: Instant,
    filePassword: Option<string>)

  /** The columns the store fills in itself when a row is created. */
  datatype Generated = Generated(id: RecordId, token: Token, createdAt: Instant)

  /** What an upload returns to the caller. It has no place for the storage
      path, the row id or the owner. */
  datatype UploadResult = UploadResult(token: Token, expiresAt: Instant, originalName: string, size: nat)

  /** What a deletion returns to the caller. */
  datatype DeleteResult = DeleteResult(originalName: string)

  /** The errors an operation reports: a client error, an unknown token, a token
      owned by someone else, or the store's own unique-constraint error when a
      store-generated key is already taken, which propagates unhandled. */
  datatype Error = BadRequest(reason: Reason) | NotFound | Forbidden | StoreError

  datatype Store = Store(records: map<Token, FileRecord>, blobs: set<Path>)

  /** The state after an operation, and what the operation returned or threw. */
  datatype Step<T> = Step(store: Store, result: Result<T, Error>)

  /** Every row is filed under its own token, and no two rows share an id. */
  predicate Valid(s: Store) {
    && (forall t :: t in s.records ==> s.records[t].token == t)
    && (forall t, u :: t in s.records && u in s.records && s.records[t].id == s.records[u].id ==> t == u)
  }

  /** The storage paths the rows point at. */
  function PathsOf(records: map<Token, FileRecord>): set<Path> {
    set t | t in records :: records[t].storagePath
  }

  /** Every row points at bytes that exist, and no two rows share those bytes.
      Bytes without a row may exist: they are the orphans a rejected upload or a
      refused unlink leaves behind. */
  predicate Backed(s: Store) {
    && (forall t :: t in s.records ==> s.records[t].storagePath in s.blobs)
    && (forall t, u :: t in s.records && u in s.records && s.records[t].storagePath == s.records[u].storagePath ==> t == u)
  }

  /** The row found by `findUnique({ where: { token } })`. */
  function FindByToken(s: Store, token: Token): (r: Option<FileRecord>)
    ensures r.Some? <==> token in s.records
    ensures r.Some? ==> r.value == s.records[token]
    ensures Valid(s) ==> (r.Some? <==> exists t :: t in s.records && s.records[t].token == token)
    ensures Valid(s) && r.Some? ==> r.value.token == token
  {
    if token in s.records then Some(s.records[token]) else None
  }

  function IdsOf(records: map<Token, FileRecord>): set<RecordId> {
    set t | t in records :: records[t].id
  }

  /** The public projection of a stored row. */
  function Publish(rec: FileRecord): UploadResult {
    UploadResult(rec.token, rec.expiresAt, rec.originalName, rec.size)
  }

  /** The row `prisma.file.create` inserts for an accepted file. */
  function NewRecord(file: UploadedFile, userId: UserId, expiry: Instant, gen: Generated): FileRecord {
    FileRecord(gen.id, gen.token, file.originalName, file.mimeType, file.size,
               file.path, expiry, userId, gen.createdAt, None)
  }

  /** `uploadFile`: validate the file, resolve its expiry, insert one row and
      return its public projection.

      A rejected file, or a generated key already in use, leaves both stores
      exactly as they were. An accepted file adds exactly one row, filed under a
      token that was free, owned by the caller, pointing at the uploaded bytes
      and expiring inside the window; nothing else changes and the caller gets
      back the token, expiry, name and size of that row. */
  function UploadFile(
    s: Store, file: UploadedFile, userId: UserId, expiresAt: Option<string>,
    maxFileSize: int, now: Instant, parse: string -> Option<Instant>, gen: Generated): (r: Step<UploadResult>)
    ensures Validate(maxFileSize, file).Reject? ==>
      r == Step(s, Failure(BadRequest(Validate(maxFileSize, file).reason)))
    ensures r.result.Failure? ==> r.store == s
    ensures r.result.Success? <==>
      Validate(maxFileSize, file) == Accept && gen.token !in s.records && gen.id !in IdsOf(s.records)
    ensures Validate(maxFileSize, file) == Accept && (gen.token in s.records || gen.id in IdsOf(s.records)) ==>
      r == Step(s, Failure(StoreError))
    ensures r.result.Success? ==>
      && r.store.blobs == s.blobs
      && gen.token in r.store.records
      && r.store.records == s.records[gen.token := r.store.records[gen.token]]
      && var rec := r.store.records[gen.token];
      && rec.token == gen.token && rec.id == gen.id
      && rec.userId == userId
      && rec.storagePath == file.path
      && rec.originalName == file.originalName && rec.mimeType == file.mimeType && rec.size == file.size
      && rec.expiresAt == ResolveExpiry(now, expiresAt, parse)
      && rec.createdAt == gen.createdAt && rec.filePassword == None
      && MinExpiry(now) <= rec.expiresAt <= MaxExpiry(now)
      && r.result.value == UploadResult(gen.token, rec.expiresAt, file.originalName, file.size)
  {
    match Validate(maxFileSize, file)
    case Reject(reason) => Step(s, Failure(BadRequest(reason)))
    case Accept =>
      var expiry := ResolveExpiry(now, expiresAt, parse);
      if gen.token in s.records || gen.id in IdsOf(s.records) then
        Step(s, Failure(StoreError))
      else
        var rec := NewRecord(file, userId, expiry, gen);
        Step(s.(records := s.records[gen.token := rec]), Success(Publish(rec)))
  }

  /** Best-effort `fs.unlink`: the path no longer holds bytes unless the file
      system refused for a reason other than absence. Whether it worked is
      reported, and the caller ignores it. */
  function Unlink(blobs: set<Path>, path: Path, refused: bool): (r: (set<Path>, bool))
    ensures blobs - {path} <= r.0 <= blobs
    ensures !refused ==> path !in r.0
    ensures refused ==> r.0 == blobs
    ensures r.1 <==> path in blobs && path !in r.0
  {
    if path in blobs && !refused then (blobs - {path}, true) else (blobs, false)
  }

  /** `deleteFile`: look the token up, check the caller owns the row, delete the
      row, then try to remove the stored bytes.

      An unknown token is NotFound and a row owned by someone else is Forbidden,
      both with nothing changed. For the owner the row (and only that row) is
      gone, the bytes are removed unless the file system refuses, the other
      stored bytes stay, and the result is the row's original name whether or
      not the bytes could be removed. */
  function DeleteFile(s: Store, token: Token, userId: UserId, unlinkRefused: bool): (r: Step<DeleteResult>)
    ensures token !in s.records ==> r == Step(s, Failure(NotFound))
    ensures token in s.records && s.records[token].userId != userId ==> r == Step(s, Failure(Forbidden))
    ensures token in s.records && s.records[token].userId == userId ==>
      var file := s.records[token];
      && r.result == Success(DeleteResult(file.originalName))
      && token !in r.store.records
      && (forall t :: t in s.records && t != token ==> t in r.store.records && r.store.records[t] == s.records[t])
      && r.store.records.Keys == s.records.Keys - {token}
      && s.blobs - {file.storagePath} <= r.store.blobs <= s.blobs
      && (!unlinkRefused ==> file.storagePath !in r.store.blobs)
      && (unlinkRefused ==> r.store.blobs == s.blobs)
  {
    match FindByToken(s, token)
    case None => Step(s, Failure(NotFound))
    case Some(file) =>
      if file.userId != userId then
        Step(s, Failure(Forbidden))
      else
        var records := s.records - {token};
        var (blobs, _) := Unlink(s.blobs, file.storagePath, unlinkRefused);
        Step(Store(records, blobs), Success(DeleteResult(file.originalName)))
  }

  /** An upload keeps the store well formed. */
  lemma UploadPreservesValid(
    s: Store, file: UploadedFile, userId: UserId, expiresAt: Option<string>,
    maxFileSize: int, now: Instant, parse: string -> Option<Instant>, gen: Generated)
    requires Valid(s)
    ensures Valid(UploadFile(s, file, userId, expiresAt, maxFileSize, now, parse, gen).store)
  {
    var r := UploadFile(s, file, userId, expiresAt, maxFileSize, now, parse, gen);
    if r.result.Success? {
      var rec := NewRecord(file, userId, ResolveExpiry(now, expiresAt, parse), gen);
      assert r.store == s.(records := s.records[gen.token := rec]);
      InsertPreservesValid(s, rec);
    }
  }

  /** Filing a row under its own token, when neither its token nor its id is
      in use, keeps the store well formed. */
  lemma InsertPreservesValid(s: Store, rec: FileRecord)
    requires Valid(s) && rec.token !in s.records && rec.id !in IdsOf(s.records)
    ensures Valid(s.(records := s.records[rec.token := rec]))
  {
    var m := s.records[rec.token := rec];
    forall t, u | t in m && u in m && m[t].id == m[u].id
      ensures t == u
    {
      if t != rec.token {
        assert m[t].id in IdsOf(s.records);
      }
      if u != rec.token {
        assert m[u].id in IdsOf(s.records);
      }
    }
  }

  /** A successful upload grows the record store by exactly one row. */
  lemma UploadAddsOneRecord(
    s: Store, file: UploadedFile, userId: UserId, expiresAt: Option<string>,
    maxFileSize: int, now: Instant, parse: string -> Option<Instant>, gen: Generated)
    requires UploadFile(s, file, userId, expiresAt, maxFileSize, now, parse, gen).result.Success?
    ensures |UploadFile(s, file, userId, expiresAt, maxFileSize, now, parse, gen).store.records| == |s.records| + 1
  {
    var m := UploadFile(s, file, userId, expiresAt, maxFileSize, now, parse, gen).store.records;
    assert m.Keys == s.records.Keys + {gen.token};
  }

  /** What an upload returns does not depend on where the bytes were stored nor
      on who uploaded them: the storage path and the owner never reach the
      caller. */
  lemma UploadResultHidesPathAndOwner(
    s: Store, f: UploadedFile, g: UploadedFile, u1: UserId, u2: UserId, expiresAt: Option<string>,
    maxFileSize: int, now: Instant, parse: string -> Option<Instant>, gen: Generated)
    requires f.originalName == g.originalName && f.mimeType == g.mimeType && f.size == g.size
    ensures UploadFile(s, f, u1, expiresAt, maxFileSize, now, parse, gen).result
         == UploadFile(s, g, u2, expiresAt, maxFileSize, now, parse, gen).result
  {
    assert Validate(maxFileSize, f) == Validate(maxFileSize, g);
  }

  /** A deletion keeps the store well formed. */
  lemma DeletePreservesValid(s: Store, token: Token, userId: UserId, unlinkRefused: bool)
    requires Valid(s)
    ensures Valid(DeleteFile(s, token, userId, unlinkRefused).store)
  {
  }

  /** An upload keeps every row backed by its own bytes, provided the uploaded
      bytes are in place and no row points at them yet; the upload middleware
      writes each upload under a fresh name. */
  lemma UploadPreservesBacked(
    s: Store, file: UploadedFile, userId: UserId, expiresAt: Option<string>,
    maxFileSize: int, now: Instant, parse: string -> Option<Instant>, gen: Generated)
    requires Backed(s)
    requires file.path in s.blobs && file.path !in PathsOf(s.records)
    ensures Backed(UploadFile(s, file, userId, expiresAt, maxFileSize, now, parse, gen).store)
  {
    var r := UploadFile(s, file, userId, expiresAt, maxFileSize, now, parse, gen);
    if r.result.Success? {
      var rec := NewRecord(file, userId, ResolveExpiry(now, expiresAt, parse), gen);
      assert r.store == s.(records := s.records[gen.token := rec]);
      InsertPreservesBacked(s, rec);
    }
  }

  /** Filing a row under an unused token, pointing at bytes that exist and that
      no row points at, keeps every row backed by its own bytes. */
  lemma InsertPreservesBacked(s: Store, rec: FileRecord)
    requires Backed(s) && rec.token !in s.records
    requires rec.storagePath in s.blobs && rec.storagePath !in PathsOf(s.records)
    ensures Backed(s.(records := s.records[rec.token := rec]))
  {
    var m := s.records[rec.token := rec];
    forall t, u | t in m && u in m && m[t].storagePath == m[u].storagePath
      ensures t == u
    {
      if t != rec.token {
        assert m[t].storagePath in PathsOf(s.records);
      }
      if u != rec.token {
        assert m[u].storagePath in PathsOf(s.records);
      }
    }
  }

  /** A deletion keeps every remaining row backed by its own bytes: the bytes it
      may remove belonged to the deleted row alone. */
  lemma DeletePreservesBacked(s: Store, token: Token, userId: UserId, unlinkRefused: bool)
    requires Backed(s)
    ensures Backed(DeleteFile(s, token, userId, unlinkRefused).store)
  {
  }

  /** A refused upload leaves its bytes on disk with no row pointing at them:
      an orphan, never a row without bytes. */
  lemma RejectedUploadOrphansBytes(
    s: Store, file: UploadedFile, userId: UserId, expiresAt: Option<string>,
    maxFileSize: int, now: Instant, parse: string -> Option<Instant>, gen: Generated)
    requires file.path in s.blobs && file.path !in PathsOf(s.records)
    requires UploadFile(s, file, userId, expiresAt, maxFileSize, now, parse, gen).result.Failure?
    ensures var r := UploadFile(s, file, userId, expiresAt, maxFileSize, now, parse, gen);
      file.path in r.store.blobs && file.path !in PathsOf(r.store.records)
  {
  }

  /** What a deletion returns, and which rows remain, do not depend on the
      stored bytes: whether they were present, already gone, or could not be
      removed, the caller sees the same outcome. */
  lemma DeleteOutcomeIgnoresBlobs(
    records: map<Token, FileRecord>, b1: set<Path>, b2: set<Path>,
    token: Token, userId: UserId, refused1: bool, refused2: bool)
    ensures DeleteFile(Store(records, b1), token, userId, refused1).result
         == DeleteFile(Store(records, b2), token, userId, refused2).result
    ensures DeleteFile(Store(records, b1), token, userId, refused1).store.records
         == DeleteFile(Store(records, b2), token, userId, refused2).store.records
  {
  }

  /** Once a token has been deleted, deleting it again reports NotFound and
      changes nothing. */
  lemma DeleteTwiceIsNotFound(s: Store, token: Token, userId: UserId, refused1: bool, refused2: bool)
    requires DeleteFile(s, token, userId, refused1).result.Success?
    ensures var s' := DeleteFile(s, token, userId, refused1).store;
      DeleteFile(s', token, userId, refused2) == Step(s', Failure(NotFound))
  {
  }

  /** Uploading a file and then deleting it, as its owner, by the token the
      upload returned gives back the original name and exactly the rows there
      were before. */
  lemma UploadThenDeleteRestoresRecords(
    s: Store, file: UploadedFile, userId: UserId, expiresAt: Option<string>,
    maxFileSize: int, now: Instant, parse: string -> Option<Instant>, gen: Generated, refused: bool)
    requires UploadFile(s, file, userId, expiresAt, maxFileSize, now, parse, gen).result.Success?
    ensures
      var up := UploadFile(s, file, userId, expiresAt, maxFileSize, now, parse, gen);
      var del := DeleteFile(up.store, up.result.value.token, userId, refused);
      && del.result == Success(DeleteResult(file.originalName))
      && del.store.records == s.records
  {
    var up := UploadFile(s, file, userId, expiresAt, maxFileSize, now, parse, gen);
    var rec := up.store.records[gen.token];
    var del := DeleteFile(up.store, gen.token, userId, refused);
    assert del.store.records == s.records[gen.token := rec] - {gen.token};
    RemoveAfterInsert(s.records, gen.token, rec);
  }

  /** Removing a key just added to a map gives back the map. */
  lemma RemoveAfterInsert(m: map<Token, FileRecord>, k: Token, v: FileRecord)
    requires k !in m
    ensures m[k := v] - {k} == m
  {
    assert (m[k := v] - {k}).Keys == m.Keys;
  }

  /** Uploading `test.pdf` (1024 bytes, `application/pdf`) with no requested
      expiry returns its name and size with an expiry of seven days from now. */
  lemma ScenarioUploadPdf(s: Store, file: UploadedFile, now: Instant, parse: string -> Option<Instant>, gen: Generated)
    requires file == UploadedFile("test.pdf", "application/pdf", 1024, "/uploads/user-id/uuid.pdf")
    requires gen.token !in s.records && gen.id !in IdsOf(s.records)
    ensures UploadFile(s, file, "user-123", None, DEFAULT_MAX_FILE_SIZE, now, parse, gen).result
         == Success(UploadResult(gen.token, now + 7 * DAY, "test.pdf", 1024))
  {
    PdfAccepted(file);
  }

  /** Any file uploaded with no requested expiry, once stored, is given the
      maximum expiry: exactly seven days from now. */
  lemma UploadWithoutExpiryGetsSevenDays(
    s: Store, file: UploadedFile, userId: UserId, maxFileSize: int, now: Instant,
    parse: string -> Option<Instant>, gen: Generated)
    requires UploadFile(s, file, userId, None, maxFileSize, now, parse, gen).result.Success?
    ensures UploadFile(s, file, userId, None, maxFileSize, now, parse, gen).result.value.expiresAt == now + 7 * DAY
    ensures UploadFile(s, file, userId, None, maxFileSize, now, parse, gen).store.records[gen.token].expiresAt
         == now + 7 * DAY
  {
  }

  lemma PdfAccepted(file: UploadedFile)
    requires file == UploadedFile("test.pdf", "application/pdf", 1024, "/uploads/user-id/uuid.pdf")
    ensures Validate(DEFAULT_MAX_FILE_SIZE, file) == Accept
  {
    PdfExtension();
    PdfNotDenied();
  }

  lemma PdfNotDenied()
    ensures "application/pdf" !in FORBIDDEN_MIME_TYPES
    ensures ".pdf" !in FORBIDDEN_EXTENSIONS
  {
    assert |"application/pdf"| == 15;
    assert ".pdf"[1] == 'p';
  }

  lemma PdfExtension()
    ensures Extension("test.pdf") == ".pdf"
  {
    PdfExtName();
    PdfLower();
  }

  lemma PdfExtName()
    ensures NodePath.ExtName("test.pdf") == ".pdf"
  {
    assert "test" + ".pdf" == "test.pdf";
    NodePath.ExtNameOfSuffix("test", ".pdf");
  }

  lemma PdfLower()
    ensures Text.ToLower(".pdf") == ".pdf"
  {
  }

  /** Uploading the test file renamed `virus.exe` is a client error and stores
      nothing. */
  lemma ScenarioUploadVirus(s: Store, now: Instant, parse: string -> Option<Instant>, gen: Generated)
    ensures
      var file := UploadedFile("virus.exe", "application/pdf", 1024, "/uploads/user-id/uuid.pdf");
      UploadFile(s, file, "user-123", None, DEFAULT_MAX_FILE_SIZE, now, parse, gen)
        == Step(s, Failure(BadRequest(TypeNotAllowed)))
  {
    var file := UploadedFile("virus.exe", "application/pdf", 1024, "/uploads/user-id/uuid.pdf");
    assert "virus" + ".exe" == "virus.exe";
    assert Text.ToLower(".exe") == ".exe";
    PdfNotDenied();
    DeniedSuffixRejected(DEFAULT_MAX_FILE_SIZE, file, "virus", ".exe");
  }

  /** Deleting `token-123`, owned by `other-user`, as `user-123` is Forbidden
      and leaves the row in place. */
  lemma ScenarioDeleteForeign(s: Store, refused: bool)
    requires "token-123" in s.records && s.records["token-123"].userId == "other-user"
    ensures DeleteFile(s, "token-123", "user-123", refused) == Step(s, Failure(Forbidden))
    ensures "token-123" in DeleteFile(s, "token-123", "user-123", refused).store.records
  {
  }
}
