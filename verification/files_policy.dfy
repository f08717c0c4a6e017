/** The pure half of `FilesService`: the three denylist and size checks applied
    to an uploaded file, and the expiry window a stored file is given. */
module FilesPolicy {
  import opened Wrappers
  import opened Text
  import NodePath

  /** An instant, in milliseconds since the epoch. */
  type Instant = int

  /** One calendar day, in milliseconds. */
  const DAY: int := 24 * 60 * 60 * 1000

  /** MIME types that are refused whatever the file is called. */
  const FORBIDDEN_MIME_TYPES: seq<string> :=
    ["application/x-msdownload", "application/x-sh", "application/x-bat"]

  /** Lower-case extensions, leading dot included, that are refused. */
  const FORBIDDEN_EXTENSIONS: seq<string> := [".exe", ".bat", ".sh", ".cmd"]

  /** The size limit, in bytes, when the deployment does not configure one (1 GiB). */
  const DEFAULT_MAX_FILE_SIZE: int := 1073741824

  /** The metadata the upload middleware reports for a received file. */
  datatype UploadedFile = UploadedFile(originalName: string, mimeType: string, size: nat, path: string)

  /** Why an upload is refused with a client error. */
  datatype Reason = SizeExceeded | TypeNotAllowed | NoFileProvided

  /** The verdict of one check, or of all of them. */
  datatype Verdict = Accept | Reject(reason: Reason)

  /** The extension of a name as it is compared with the denylist: lower-cased. */
  function Extension(name: string): string {
    ToLower(NodePath.ExtName(name))
  }

  // The three checks, each on its own.

  function SizeCheck(maxFileSize: int, file: UploadedFile): Verdict {
    if file.size > maxFileSize then Reject(SizeExceeded) else Accept
  }

  function MimeCheck(file: UploadedFile): Verdict {
    if file.mimeType in FORBIDDEN_MIME_TYPES then Reject(TypeNotAllowed) else Accept
  }

  function ExtensionCheck(file: UploadedFile): Verdict {
    if Extension(file.originalName) in FORBIDDEN_EXTENSIONS then Reject(TypeNotAllowed) else Accept
  }

  /** `validateFile`: the size, then the MIME type, then the extension; the first
      violation is reported. A file is accepted exactly when it is within the
      limit and neither its type nor its extension is denied, and the size
      violation takes precedence over the other two. */
  function Validate(maxFileSize: int, file: UploadedFile): (r: Verdict)
    ensures r == Accept <==>
      && file.size <= maxFileSize
      && file.mimeType !in FORBIDDEN_MIME_TYPES
      && Extension(file.originalName) !in FORBIDDEN_EXTENSIONS
    ensures r == Reject(SizeExceeded) <==> file.size > maxFileSize
    ensures r.Reject? ==> r.reason != NoFileProvided
  {
    if file.size > maxFileSize then
      Reject(SizeExceeded)
    else if file.mimeType in FORBIDDEN_MIME_TYPES then
      Reject(TypeNotAllowed)
    else
      if Extension(file.originalName) in FORBIDDEN_EXTENSIONS then Reject(TypeNotAllowed) else Accept
  }

  /** The first rejection in a list of verdicts, or acceptance if there is none. */
  function FirstRejection(vs: seq<Verdict>): (r: Verdict)
    ensures r.Accept? <==> forall i :: 0 <= i < |vs| ==> vs[i].Accept?
    ensures r.Reject? ==> exists i :: 0 <= i < |vs| && vs[i] == r && forall j :: 0 <= j < i ==> vs[j].Accept?
  {
    if vs == [] then Accept
    else if vs[0].Reject? then vs[0]
    else
      var r := FirstRejection(vs[1..]);
      assert forall i :: 1 <= i < |vs| ==> vs[i] == vs[1..][i - 1];
      if r.Reject? then
        var k :| 0 <= k < |vs[1..]| && vs[1..][k] == r && forall j :: 0 <= j < k ==> vs[1..][j].Accept?;
        assert vs[k + 1] == r;
        r
      else r
  }

  /** Running the checks in the order size, MIME type, extension and keeping the
      first rejection is what `Validate` does. */
  lemma ValidateIsFirstRejection(maxFileSize: int, file: UploadedFile)
    ensures Validate(maxFileSize, file)
      == FirstRejection([SizeCheck(maxFileSize, file), MimeCheck(file), ExtensionCheck(file)])
  {
    FirstRejectionOfThree(SizeCheck(maxFileSize, file), MimeCheck(file), ExtensionCheck(file));
  }

  /** Of three verdicts, the first rejection is the first that rejects. */
  lemma FirstRejectionOfThree(a: Verdict, b: Verdict, c: Verdict)
    ensures FirstRejection([a, b, c]) == if a.Reject? then a else if b.Reject? then b else c
  {
    FirstRejectionCons(c, []);
    FirstRejectionCons(b, [c]);
    FirstRejectionCons(a, [b, c]);
    assert [c] + [] == [c] && [b] + [c] == [b, c] && [a] + [b, c] == [a, b, c];
  }

  /** One step of `FirstRejection`: a leading rejection wins, a leading
      acceptance is skipped. */
  lemma FirstRejectionCons(v: Verdict, vs: seq<Verdict>)
    ensures FirstRejection([v] + vs) == if v.Reject? then v else FirstRejection(vs)
  {
    assert ([v] + vs)[1..] == vs;
  }

  /** The size limit is inclusive: a file of exactly the maximum size is not
      refused for its size. */
  lemma SizeAtLimitPasses(maxFileSize: int, file: UploadedFile)
    requires file.size == maxFileSize
    ensures Validate(maxFileSize, file) != Reject(SizeExceeded)
  {
  }

  /** Every denied extension is a dot followed by letters only. */
  lemma ForbiddenExtensionShape(x: string)
    requires x in FORBIDDEN_EXTENSIONS
    ensures |x| >= 2 && x[0] == NodePath.DOT
    ensures forall i :: 1 <= i < |x| ==> 'a' <= x[i] <= 'z'
  {
  }

  /** A name made of a stem and a denied extension in any mix of cases is
      refused, provided it passes the size and MIME checks and the stem is a
      non-empty name that does not end in a separator (`virus.EXE`). */
  lemma DeniedSuffixRejected(maxFileSize: int, file: UploadedFile, stem: string, e: string)
    requires file.size <= maxFileSize && file.mimeType !in FORBIDDEN_MIME_TYPES
    requires file.originalName == stem + e
    requires |stem| > 0 && stem[|stem| - 1] != NodePath.SEP
    requires ToLower(e) in FORBIDDEN_EXTENSIONS
    ensures Validate(maxFileSize, file) == Reject(TypeNotAllowed)
  {
    var x := ToLower(e);
    ForbiddenExtensionShape(x);
    LowerCharKeepsNonLetter(e[0], NodePath.DOT);
    forall i | 1 <= i < |e|
      ensures e[i] != NodePath.DOT && e[i] != NodePath.SEP
    {
      LowerCharKeepsNonLetter(e[i], NodePath.DOT);
      LowerCharKeepsNonLetter(e[i], NodePath.SEP);
    }
    assert NodePath.DOT !in e[1..];
    assert NodePath.SEP !in e;
    NodePath.ExtNameOfSuffix(stem, e);
  }

  /** The verdict does not depend on the case of the name: two files that differ
      only in the case of their names are judged alike. */
  lemma ValidateIgnoresNameCase(maxFileSize: int, f: UploadedFile, g: UploadedFile)
    requires f.size == g.size && f.mimeType == g.mimeType
    requires ToLower(f.originalName) == ToLower(g.originalName)
    ensures Validate(maxFileSize, f) == Validate(maxFileSize, g)
  {
    NodePath.ExtNameCommutesWithLower(f.originalName);
    NodePath.ExtNameCommutesWithLower(g.originalName);
  }

  /** A dot file such as `.bashrc`, or a name without any dot, has no extension
      and so passes the extension check. */
  lemma NameWithoutExtensionPasses(file: UploadedFile)
    requires NodePath.SEP !in file.originalName
    requires NodePath.DOT !in file.originalName
      || (|file.originalName| > 0 && file.originalName[0] == NodePath.DOT
          && NodePath.DOT !in file.originalName[1..])
    ensures ExtensionCheck(file) == Accept
  {
    if NodePath.DOT in file.originalName {
      NodePath.DotFileHasNoExtension(file.originalName);
    }
    assert NodePath.ExtName(file.originalName) == [];
    assert Extension(file.originalName) == [];
  }

  // The expiry window.

  /** The latest expiry a file may have: seven days after `now`. */
  function MaxExpiry(now: Instant): Instant {
    now + 7 * DAY
  }

  /** The earliest expiry a file may have: one day after `now`. */
  function MinExpiry(now: Instant): Instant {
    now + DAY
  }

  /** `x` brought into `[lo, hi]`: raised to `lo` when below it, lowered to `hi`
      when above it, unchanged inside. */
  function Clamp(x: int, lo: int, hi: int): (r: int)
    requires lo <= hi
    ensures lo <= r <= hi
    ensures lo <= x <= hi ==> r == x
    ensures x < lo ==> r == lo
    ensures x > hi ==> r == hi
  {
    if x < lo then lo else if x > hi then hi else x
  }

  /** The distance between two instants. */
  function Dist(a: int, b: int): nat {
    if a <= b then b - a else a - b
  }

  /** The clamped value is the point of the window nearest to `x`, and no other
      point of the window is as near. */
  lemma ClampIsNearest(x: int, lo: int, hi: int, y: int)
    requires lo <= hi && lo <= y <= hi
    ensures Dist(Clamp(x, lo, hi), x) <= Dist(y, x)
    ensures Dist(Clamp(x, lo, hi), x) == Dist(y, x) ==> y == Clamp(x, lo, hi)
  {
  }

  /** Clamping twice is clamping once. */
  lemma ClampIdempotent(x: int, lo: int, hi: int)
    requires lo <= hi
    ensures Clamp(Clamp(x, lo, hi), lo, hi) == Clamp(x, lo, hi)
  {
  }

  /** A later request never resolves to an earlier expiry. */
  lemma ClampMonotone(x: int, y: int, lo: int, hi: int)
    requires lo <= hi && x <= y
    ensures Clamp(x, lo, hi) <= Clamp(y, lo, hi)
  {
  }

  /** `resolveExpiry`: the expiry given to a new file. An absent or empty
      request, or one that does not parse as an instant, yields the latest
      allowed expiry; a parsed request is clamped into the window. */
  function ResolveExpiry(now: Instant, requested: Option<string>, parse: string -> Option<Instant>): (r: Instant)
    ensures MinExpiry(now) <= r <= MaxExpiry(now)
    ensures requested == None || requested == Some("") ==> r == MaxExpiry(now)
    ensures requested.Some? && requested.value != "" && parse(requested.value).None? ==> r == MaxExpiry(now)
    ensures requested.Some? && requested.value != "" && parse(requested.value).Some? ==>
      var t := parse(requested.value).value;
      && (MinExpiry(now) <= t <= MaxExpiry(now) ==> r == t)
      && (t < MinExpiry(now) ==> r == MinExpiry(now))
      && (t > MaxExpiry(now) ==> r == MaxExpiry(now))
  {
    var maxExpiry := MaxExpiry(now);
    var minExpiry := MinExpiry(now);
    match requested
    case None => maxExpiry
    case Some(s) =>
      if s == "" then maxExpiry
      else
        match parse(s)
        case None => maxExpiry
        case Some(t) => Clamp(t, minExpiry, maxExpiry)
  }

  /** Requesting again the expiry a file was given yields that same expiry. */
  lemma ResolveExpiryIdempotent(now: Instant, requested: Option<string>, parse: string -> Option<Instant>, s: string)
    requires s != "" && parse(s) == Some(ResolveExpiry(now, requested, parse))
    ensures ResolveExpiry(now, Some(s), parse) == ResolveExpiry(now, requested, parse)
  {
  }
}
