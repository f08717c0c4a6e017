# File lifecycle core of the oc-datashare backend, in Dafny

This project models `FilesService` of the file-sharing backend
(`backend/src/files/files.service.ts`) and the one rule the upload route adds to it.

- **Validation policy** (`FilesPolicy`). An uploaded file is checked for size, then MIME type,
  then lower-cased extension, and the first violation is reported as a client error.
  The denylists and the 1 GiB default limit are the service's own constants.
  The extension is taken the way Node's POSIX `path.extname` takes it (`NodePath`).
  Lower-casing is modelled in `Text`.
- **Expiry policy** (`FilesPolicy.ResolveExpiry`). A requested expiry is clamped into
  `[now + 1 day, now + 7 days]`. An absent, empty or unparsable request gets `now + 7 days`.
- **Lifecycle** (`FilesService`). The record store is a `map` from public token to row, and
  the blob store is the `set` of paths that hold bytes. `UploadFile` validates before it
  writes, then inserts exactly one row and returns its public projection. `DeleteFile` tells
  an unknown token (NotFound) from a foreign one (Forbidden) before it mutates anything. It
  then deletes the row, removes the bytes on a best-effort basis and returns the original name.
- **Upload route** (`FilesController.Upload`). A request without a file is a client error.

Inputs the code takes from its environment are parameters of the model:
- the clock, as `now` in milliseconds;
- the date parser, as `parse: string -> Option<Instant>`;
- the configured size limit, as `maxFileSize`;
- the columns the store generates for a new row (id, token, creation time), as `Generated`;
- whether the file system refuses an unlink for a reason other than absence, as `unlinkRefused`.

In two places the code does less than a cautious design would, and the model follows the code:
- A rejected upload leaves the bytes the upload middleware already wrote to disk in place.
  The service throws without unlinking them, so `UploadFile` never touches the blob store.
- A store-generated key that is already taken is not caught by the code. The model reports it
  as a `StoreError` with nothing written, which is what the propagated exception leaves behind.

## Model

| member | source | states |
|---|---|---|
| `FilesPolicy.Validate` | backend/src/files/files.service.ts:104-119 | a file is accepted iff its size is within the limit, its MIME type is not denied and its lower-cased extension is not denied; it is refused for size exactly when it is over the limit, and never for a missing file |
| `FilesPolicy.ValidateIsFirstRejection` | backend/src/files/files.service.ts:104-119 | the verdict is the first rejection among the size, MIME and extension checks run in that order |
| `FilesPolicy.FirstRejectionOfThree` | backend/src/files/files.service.ts:104-119 | of three checks run in order, the outcome is the first that rejects, or the last when the first two accept |
| `FilesPolicy.SizeAtLimitPasses` | backend/src/files/files.service.ts:105-109 | the size comparison is strict, so a file of exactly the maximum size is not refused for size |
| `FilesPolicy.ForbiddenExtensionShape` | backend/src/files/files.service.ts:18 | every denied extension is a dot followed by lower-case letters |
| `FilesPolicy.DeniedSuffixRejected` | backend/src/files/files.service.ts:115-118 | a file within the size limit and of an allowed MIME type, whose name is a non-empty stem not ending in a separator followed by a denied extension in any mix of cases (`virus.EXE`), is refused with the type error |
| `FilesPolicy.ValidateIgnoresNameCase` | backend/src/files/files.service.ts:115-118 | two files whose names differ only in letter case get the same verdict |
| `FilesPolicy.NameWithoutExtensionPasses` | backend/src/files/files.service.ts:115-118 | a name without a separator that has no dot, or whose only dot leads it (`.bashrc`), passes the extension check |
| `FilesPolicy.FirstRejection` | backend/src/files/files.service.ts:104-119 | the first rejection of a list of checks is acceptance iff every check accepts, and otherwise a rejection in the list preceded only by acceptances |
| `FilesPolicy.Clamp` | backend/src/files/files.service.ts:142-145 | the result lies in the window, equals the request inside it, and is the nearer bound outside it |
| `FilesPolicy.ClampIsNearest` | backend/src/files/files.service.ts:142-145 | the clamped value is the unique point of the window nearest to the request |
| `FilesPolicy.ClampIdempotent` | backend/src/files/files.service.ts:142-145 | clamping an already clamped value changes nothing |
| `FilesPolicy.ClampMonotone` | backend/src/files/files.service.ts:142-145 | a later request never yields an earlier expiry |
| `FilesPolicy.ResolveExpiry` | backend/src/files/files.service.ts:125-146 | the expiry always lies in [now + 1 day, now + 7 days]; an absent, empty or unparsable request yields exactly now + 7 days; a parsed request is kept inside the window and raised or lowered to the nearer bound outside it |
| `FilesPolicy.ResolveExpiryIdempotent` | backend/src/files/files.service.ts:136-145 | at the same instant, requesting the expiry a file was given yields that same expiry |
| `Text.LowerChar` | backend/src/files/files.service.ts:115 | lowering yields no upper-case letter, keeps letters letters and non-letters unchanged, and maps each upper-case letter to the lower-case letter at the same place in the alphabet |
| `Text.ToLower` | backend/src/files/files.service.ts:115 | the lowered name has the same length and each character lowered in place |
| `Text.LowerKeepsAbsence` | backend/src/files/files.service.ts:115 | a lowered name contains a non-letter iff the original does |
| `NodePath.LastIndexOf` | backend/src/files/files.service.ts:115 | the result is absent iff the character does not occur, and otherwise an occurrence with none after it |
| `NodePath.LastIndexOfUnique` | backend/src/files/files.service.ts:115 | an occurrence with none after it is the one found |
| `NodePath.StripTrailingSeparators` | backend/src/files/files.service.ts:115 | the result is a prefix of the path that does not end in a separator, and everything cut off is separators |
| `NodePath.AfterLast` | backend/src/files/files.service.ts:115 | the result is a suffix free of the character that is either the whole text (exactly when the character does not occur) or starts right after an occurrence of it, so it is what follows the last occurrence |
| `NodePath.Basename` | backend/src/files/files.service.ts:115 | the last component is the suffix of the path, trailing separators removed, that starts right after its last separator (or is all of it), contains no separator, and is the whole path when there is no separator |
| `NodePath.ExtName` | backend/src/files/files.service.ts:115 | the extension is empty exactly when the last component has no dot, has its only dot in front, or is `..`; otherwise it is the dot-led proper suffix of the last component with no further dot and no separator |
| `NodePath.ComponentExtension` | backend/src/files/files.service.ts:115 | the extension of a component is empty exactly when it has no dot, its only dot leads it, or it is `..`; otherwise it is the dot-led proper suffix of it with no further dot |
| `NodePath.ComponentExtensionOfSuffix` | backend/src/files/files.service.ts:115 | a non-empty component followed by a suffix of at least two characters whose only dot leads it has that suffix as its extension |
| `NodePath.ExtNameOfSuffix` | backend/src/files/files.service.ts:115 | a non-empty stem not ending in a separator, followed by a separator-free suffix of at least two characters whose only dot leads it, has that suffix as its extension |
| `NodePath.DotFileHasNoExtension` | backend/src/files/files.service.ts:115 | a separator-free name whose only dot is its first character has no extension |
| `NodePath.ExtNameCommutesWithLower` | backend/src/files/files.service.ts:115 | the extension of the lowered name is the lowered extension |
| `FilesService.FindByToken` | backend/src/files/files.service.ts:73-75 | in a well-formed store the lookup finds a row iff some stored row carries that token, and the row found carries it |
| `FilesService.UploadFile` | backend/src/files/files.service.ts:42-70 | a rejected file is reported with its reason and changes nothing; any failure changes nothing; an accepted file whose generated token or id is taken is a StoreError; success happens iff the file is accepted and the generated token and id are free, and then exactly one row is added under the new token, owned by the caller, pointing at the uploaded bytes, expiring in the window, created at the store's timestamp and with no password, with the blob store untouched and the token, expiry, name and size returned |
| `FilesService.UploadPreservesValid` | backend/src/files/files.service.ts:51-60 | an upload keeps every row filed under its own token and row ids distinct |
| `FilesService.InsertPreservesValid` | backend/src/files/files.service.ts:51-60 | filing a row under its own token, with token and id both unused, keeps the store well formed |
| `FilesService.UploadAddsOneRecord` | backend/src/files/files.service.ts:51-60 | a successful upload grows the record store by exactly one row |
| `FilesService.UploadResultHidesPathAndOwner` | backend/src/files/files.service.ts:64-69 | the returned result is the same whatever the storage path and the owner, so neither reaches the caller |
| `FilesService.DeleteFile` | backend/src/files/files.service.ts:72-98 | an unknown token is NotFound and a foreign row is Forbidden, both with nothing changed; for the owner the row alone is removed, other rows are untouched, the bytes are removed unless the file system refuses, in which case the blob store is left exactly as it was, no other bytes are removed, and the original name is returned |
| `FilesService.Unlink` | backend/src/files/files.service.ts:89-93 | no path other than the file's loses its bytes; the file's bytes are gone unless the file system refuses, and a refusal leaves every byte in place; the reported outcome is true iff bytes were present and are now gone |
| `FilesService.UploadPreservesBacked` | backend/src/files/files.service.ts:42-70 | when the uploaded bytes are in place and no row points at them yet, an upload keeps every row pointing at existing bytes of its own |
| `FilesService.InsertPreservesBacked` | backend/src/files/files.service.ts:51-60 | filing a row under an unused token, pointing at existing bytes no other row points at, keeps every row backed by bytes of its own |
| `FilesService.DeletePreservesBacked` | backend/src/files/files.service.ts:72-98 | a deletion keeps every remaining row pointing at existing bytes of its own |
| `FilesService.RejectedUploadOrphansBytes` | backend/src/files/files.service.ts:42-60 | a failed upload leaves the uploaded bytes on disk with no row pointing at them |
| `FilesService.DeletePreservesValid` | backend/src/files/files.service.ts:85-87 | a deletion keeps the store well formed |
| `FilesService.DeleteOutcomeIgnoresBlobs` | backend/src/files/files.service.ts:89-93 | the result and the remaining rows do not depend on whether the bytes were present or could be removed |
| `FilesService.DeleteTwiceIsNotFound` | backend/src/files/files.service.ts:72-87 | after a successful deletion, deleting the same token again is NotFound and changes nothing |
| `FilesService.UploadThenDeleteRestoresRecords` | backend/src/files/files.service.ts:42-98 | deleting, as its owner, the token an upload returned gives back the original name and exactly the rows there were before the upload |
| `FilesService.ScenarioUploadPdf` | backend/src/files/files.service.spec.ts:52-71 | uploading `test.pdf` with no requested expiry succeeds and returns its token, name and size (and, with them, an expiry of now + 7 days) |
| `FilesService.UploadWithoutExpiryGetsSevenDays` | backend/src/files/files.service.spec.ts:146-167 | any successful upload with no requested expiry returns, and stores, an expiry of exactly now + 7 days |
| `FilesService.ScenarioUploadVirus` | backend/src/files/files.service.spec.ts:88-92 | uploading `virus.exe` declared as `application/pdf` is a client error and changes nothing |
| `FilesService.ScenarioDeleteForeign` | backend/src/files/files.service.spec.ts:126-143 | deleting `token-123`, owned by `other-user`, as `user-123` is Forbidden and the row stays |
| `FilesController.Upload` | backend/src/files/files.controller.ts:61-71 | a request without a file is a client error that changes nothing; otherwise it is the service's upload |

## Left out

- Date parsing: `new Date(expiresAt)` is the parameter `parse`, and "not a number" is `None`.
- Calendar arithmetic: `setDate(getDate() + n)` works in local time and so shifts by an hour across a daylight-saving change; the model adds `n` fixed 24-hour days. The two `new Date()` calls are one instant `now`.
- `Text.LowerChar`: only the ASCII capitals A-Z are lowered, where `toLowerCase` also lowers non-ASCII capitals; see the next line for why the verdict does not change.
- `Text.ToLower`: only ASCII letters are lowered, where `toLowerCase` maps all of Unicode. No non-ASCII character lowers to one of the denied extensions, so the verdict of the default denylist is the same.
- `NodePath.ExtName`: only the POSIX flavour of `path.extname` is modelled; on Windows the backslash would also separate components.
- The configured size limit comes from `parseInt` of an environment variable; it is an integer parameter here, and a value that does not parse (NaN) is not modelled.
- The upload middleware's own 1 GiB limit and its disk placement of the bytes (backend/src/files/files.controller.ts:34-44) are transport behaviour. The service itself does not check that the bytes are at the uploaded path; the store-invariant lemmas (`UploadPreservesBacked`, `RejectedUploadOrphansBytes`) take that, and a fresh path, as their premise.
- Logging (`Logger.log`, `Logger.warn`) has no observable effect on results and is left out.
- The messages of the thrown exceptions are not modelled; an error carries its kind and, for a refused file, the reason.
- Concurrency and store transactions: operations are sequential, so a row cannot vanish between the lookup and the deletion of `deleteFile`.
- `filePassword` is stored as absent and never checked, as in the code.
- Authentication, users, password hashing and token signing (`auth`, `users`), module wiring, the request DTO and Swagger generation have no logic of the file lifecycle.
