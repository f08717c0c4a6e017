/** The upload route: the only rule it adds to the service is that a request
    carrying no file is a client error. */
module FilesController {
  import opened Wrappers
  import opened FilesPolicy
  import opened FilesService

  /** `upload`: refuse a request without a file, otherwise hand the file, the
      authenticated caller and the requested expiry to the service. */
  function Upload(
    s: Store, file: Option<UploadedFile>, userId: UserId, expiresAt: Option<string>,
    maxFileSize: int, now: Instant, parse: string -> Option<Instant>, gen: Generated): (r: Step<UploadResult>)
    ensures file.None? ==> r == Step(s, Failure(BadRequest(NoFileProvided)))
    ensures file.Some? ==> r == UploadFile(s, file.value, userId, expiresAt, maxFileSize, now, parse, gen)
    ensures r.result.Failure? ==> r.store == s
  {
    match file
    case None => Step(s, Failure(BadRequest(NoFileProvided)))
    case Some(f) => UploadFile(s, f, userId, expiresAt, maxFileSize, now, parse, gen)
  }
}
