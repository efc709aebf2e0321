/** Document content, the antivirus status and the document lock (documents/models.py,
    `BaseContent` and `Document`; documents/lock.py).

    The md5 digest, the `mimetypes` guess, uuid generation, the clock and the date
    parser/formatter are parameters. Times are integer seconds. */
module DocContent {
  import opened Wrappers

  type Byte = b: int | 0 <= b < 256

  // ---------------------------------------------------------------------------
  // Content
  // ---------------------------------------------------------------------------

  /** A content blob with the two metadata keys the antivirus logic reads. `antivirus` is
      None when the key is absent and Some(v) when present, `v` itself possibly None. */
  datatype Blob = Blob(value: seq<Byte>, antivirus: Option<Option<bool>>, taskId: Option<string>)

  /** The content-related columns of a document. */
  datatype Doc = Doc(
    title: string,
    blob: Option<Blob>,
    contentLength: nat,
    digest: Option<string>,
    contentType: string,
    hasPdf: bool,
    hasText: bool)

  /** Assigning `content` on a document: a fresh blob holding the bytes (so with empty
      metadata), the length recorded, a new antivirus task id, and the derived PDF and text
      dropped. */
  function SetContentBytes(d: Doc, value: seq<Byte>, newTaskId: string): (r: Doc)
    ensures r.blob == Some(Blob(value, None, Some(newTaskId)))
    ensures r.contentLength == |value|
    ensures !r.hasPdf && !r.hasText
    ensures r.title == d.title && r.digest == d.digest && r.contentType == d.contentType
  {
    d.(blob := Some(Blob(value, None, Some(newTaskId))), contentLength := |value|, hasPdf := false, hasText := false)
  }

  /** The content types that say nothing about the content. */
  predicate IsGenericType(ct: string) {
    ct in ["", "application/octet-stream", "binary/octet-stream", "application/binary", "multipart/octet-stream"]
  }

  /** `find_content_type`: a specific type is kept; a generic one is replaced by the guess
      from the title, unless there is no title, no guess, or the unhelpful ActiveX guess. */
  function FindContentType(title: string, ct: string, guess: string -> Option<string>): (r: string)
    ensures !IsGenericType(ct) ==> r == ct
    ensures r == ct || (title != "" && guess(title) == Some(r) && r != "" && r != "application/vnd.ms-office.activeX")
    ensures (IsGenericType(ct) && title != "" && guess(title).Some? && guess(title).value != ""
             && guess(title).value != "application/vnd.ms-office.activeX") ==> r == guess(title).value
  {
    if !IsGenericType(ct) then ct
    else if title != "" then
      match guess(title)
      case Some(g) => if g != "" && g != "application/vnd.ms-office.activeX" then g else ct
      case None => ct
    else ct
  }

  /** Asking again with the answer gives the same answer. */
  lemma FindContentTypeIdempotent(title: string, ct: string, guess: string -> Option<string>)
    ensures FindContentType(title, FindContentType(title, ct, guess), guess) == FindContentType(title, ct, guess)
  {
  }

  /** `set_content`: nothing happens when the digest is unchanged; otherwise the digest and
      the bytes are replaced and the content type is refined, an empty result leaving the old
      type in place. */
  function SetContent(d: Doc, content: seq<Byte>, ct: string, md5: seq<Byte> -> string,
                      guess: string -> Option<string>, newTaskId: string): (r: Doc)
    ensures d.digest == Some(md5(content)) ==> r == d
    ensures d.digest != Some(md5(content)) ==>
              r.digest == Some(md5(content)) && r.blob.Some? && r.blob.value.value == content
              && r.contentLength == |content| && r.title == d.title
              && r.contentType == (if FindContentType(d.title, ct, guess) != "" then FindContentType(d.title, ct, guess) else d.contentType)
  {
    var digest := md5(content);
    if d.digest == Some(digest) then d
    else
      var d1 := SetContentBytes(d.(digest := Some(digest)), content, newTaskId);
      var found := FindContentType(d1.title, ct, guess);
      if found != "" then d1.(contentType := found) else d1
  }

  /** Setting the same content twice is the same as setting it once. */
  lemma SetContentIdempotent(d: Doc, content: seq<Byte>, ct: string, md5: seq<Byte> -> string,
                             guess: string -> Option<string>, id1: string, id2: string)
    ensures var once := SetContent(d, content, ct, md5, guess, id1);
            SetContent(once, content, ct, md5, guess, id2) == once
  {
  }

  // ---------------------------------------------------------------------------
  // Antivirus
  // ---------------------------------------------------------------------------

  /** `antivirus_scanned`: the blob carries an "antivirus" entry, whatever its value. */
  predicate Scanned(d: Doc) {
    d.blob.Some? && d.blob.value.antivirus.Some?
  }

  /** `antivirus_status`: True (clean), False (infected) or None (no blob, no entry, or a
      scan without result). */
  function Status(d: Doc): (r: Option<bool>)
    ensures r.Some? ==> Scanned(d)
    ensures Scanned(d) ==> r == d.blob.value.antivirus.value
  {
    if d.blob.Some? && d.blob.value.antivirus.Some? then d.blob.value.antivirus.value else None
  }

  /** `antivirus_required`: the check is configured and no conclusive scan exists. */
  predicate Required(checkRequired: bool, d: Doc) {
    checkRequired && (!Scanned(d) || Status(d).None?)
  }

  /** `antivirus_ok`: with the check configured only a clean scan will do; without it only
      a detected virus blocks access. */
  predicate AntivirusOk(checkRequired: bool, d: Doc) {
    if checkRequired then Status(d) == Some(true) else Status(d) != Some(false)
  }

  /** With the check configured, a document is accessible exactly when no scan is pending and
      the scan found no virus; without it no scan is ever required. */
  lemma AntivirusTruthTable(checkRequired: bool, d: Doc)
    ensures checkRequired ==> (AntivirusOk(true, d) <==> !Required(true, d) && Status(d) != Some(false))
    ensures !Required(false, d)
    ensures AntivirusOk(true, d) ==> AntivirusOk(false, d)
    ensures Status(d).None? ==> (AntivirusOk(false, d) && !AntivirusOk(true, d))
  {
    var s := Status(d);
    if s.Some? {
      assert s.value || !s.value;
    }
  }

  /** New content has not been scanned: it requires a check when one is configured, and it
      is accessible only when none is. */
  lemma NewContentUnscanned(checkRequired: bool, d: Doc, value: seq<Byte>, id: string)
    ensures var d2 := SetContentBytes(d, value, id);
            Required(checkRequired, d2) == checkRequired && AntivirusOk(checkRequired, d2) == !checkRequired
  {
  }

  /** What scheduling can raise: a required scan on a document without content reads the
      task id from a blob that is not there (an `AttributeError` in the source), whether the
      scan is queued eagerly or a task id is looked up. */
  datatype ScheduleError = NoContentBlob

  /** `ensure_antivirus_scheduled`: true when no check is needed, when conversion runs
      eagerly, or when a previous task has not failed; otherwise a new task id is recorded and
      false is returned. Queuing the conversion reads the blob's task id, so a required scan
      of a document without a blob fails on either path. `taskFailed` stands for the
      task-result lookup. */
  function EnsureAntivirusScheduled(checkRequired: bool, d: Doc, eager: bool, taskFailed: string -> bool,
                                    newTaskId: string): (r: Result<(bool, Doc), ScheduleError>)
    ensures !Required(checkRequired, d) || (eager && d.blob.Some?) ==> r == Success((true, d))
    ensures r.Failure? <==> Required(checkRequired, d) && d.blob.None?
    ensures (r.Success? && !r.value.0) <==>
              Required(checkRequired, d) && !eager && d.blob.Some?
              && (d.blob.value.taskId.None? || taskFailed(d.blob.value.taskId.value))
    ensures r.Success? && !r.value.0 ==>
              r.value.1 == d.(blob := Some(d.blob.value.(taskId := Some(newTaskId))))
    ensures r.Success? && r.value.0 ==> r.value.1 == d
  {
    if !Required(checkRequired, d) then Success((true, d))
    else if d.blob.None? then Failure(NoContentBlob)
    else if eager then Success((true, d))
    else if d.blob.value.taskId.Some? && !taskFailed(d.blob.value.taskId.value) then Success((true, d))
    else Success((false, d.(blob := Some(d.blob.value.(taskId := Some(newTaskId))))))
  }

  /** Scheduling settles: once a task has been recorded, calling again while that task has
      not failed reports it as scheduled and leaves the document alone; recording the task id
      does not change whether a scan is required. */
  lemma ScheduleSettles(checkRequired: bool, d: Doc, eager: bool, taskFailed: string -> bool,
                        newTaskId: string, otherId: string)
    requires EnsureAntivirusScheduled(checkRequired, d, eager, taskFailed, newTaskId).Success?
    requires !taskFailed(newTaskId)
    ensures var d2 := EnsureAntivirusScheduled(checkRequired, d, eager, taskFailed, newTaskId).value.1;
            Required(checkRequired, d2) == Required(checkRequired, d)
            && EnsureAntivirusScheduled(checkRequired, d2, eager, taskFailed, otherId) == Success((true, d2))
  {
    var r := EnsureAntivirusScheduled(checkRequired, d, eager, taskFailed, newTaskId);
    if !r.value.0 {
      var d2 := r.value.1;
      assert Scanned(d2) == Scanned(d);
      assert Status(d2) == Status(d);
    }
  }

  // ---------------------------------------------------------------------------
  // Lock (documents/lock.py)
  // ---------------------------------------------------------------------------

  const DefaultLifetime: int := 3600

  /** A lock: who holds it and since when (seconds). */
  datatype Lock = Lock(userId: int, user: string, date: int)

  /** The serialised form: the date as ISO text. */
  datatype LockDict = LockDict(userId: int, user: string, date: string)

  /** The `date` argument of the constructor: a datetime, or text to parse. */
  datatype DateArg = Stamp(t: int) | Text(s: string)

  datatype LockError = ValueError | RuntimeError

  /** `Lock(user_id, user, date)`: text dates are parsed, and a parse failure is a
      ValueError. */
  function NewLock(userId: int, user: string, date: DateArg, parse: string -> Option<int>): (r: Result<Lock, LockError>)
    ensures date.Stamp? ==> r == Success(Lock(userId, user, date.t))
    ensures date.Text? ==> (r.Failure? <==> parse(date.s).None?)
    ensures r.Failure? ==> r.error == ValueError
    ensures r.Success? ==> r.value.userId == userId && r.value.user == user
  {
    match date
    case Stamp(t) => Success(Lock(userId, user, t))
    case Text(s) =>
      match parse(s)
      case Some(t) => Success(Lock(userId, user, t))
      case None => Failure(ValueError)
  }

  function AsDict(l: Lock, format: int -> string): (d: LockDict)
    ensures d.userId == l.userId && d.user == l.user && d.date == format(l.date)
  {
    LockDict(l.userId, l.user, format(l.date))
  }

  function FromDict(d: LockDict, parse: string -> Option<int>): (r: Result<Lock, LockError>)
    ensures r.Success? <==> parse(d.date).Some?
    ensures r.Success? ==> r.value == Lock(d.userId, d.user, parse(d.date).value)
  {
    NewLock(d.userId, d.user, Text(d.date), parse)
  }

  /** Reading back what was written gives the same lock, when the date parser reads the
      formatter's output. */
  lemma LockRoundTrip(l: Lock, format: int -> string, parse: string -> Option<int>)
    requires forall t :: parse(format(t)) == Some(t)
    ensures FromDict(AsDict(l, format), parse) == Success(l)
  {
  }

  /** `lifetime`: the configured value, 3600 seconds by default. */
  function Lifetime(configured: Option<int>): (r: int)
    ensures configured.None? ==> r == 3600
    ensures configured.Some? ==> r == configured.value
  {
    configured.GetOr(DefaultLifetime)
  }

  /** `expired`: strictly more than `lifetime` seconds have passed. */
  predicate Expired(l: Lock, now: int, lifetime: int) {
    now - l.date > lifetime
  }

  predicate IsOwner(l: Lock, userId: int) {
    l.userId == userId
  }

  /** A lock never expires at the moment it is taken, and expires for good once it has. */
  lemma ExpiredMonotone(l: Lock, now: int, later: int, lifetime: int)
    requires lifetime >= 0
    ensures !Expired(l.(date := now), now, lifetime)
    ensures Expired(l, now, lifetime) && now <= later ==> Expired(l, later, lifetime)
  {
  }

  /** A document's lock metadata: the stored dict, if any. */
  type LockMeta = Option<LockDict>

  /** The `lock` getter: no stored lock, or an expired one, reads as None. A stored date that
      cannot be parsed raises ValueError. */
  function GetLock(m: LockMeta, now: int, lifetime: int, parse: string -> Option<int>): (r: Result<Option<Lock>, LockError>)
    ensures m.None? ==> r == Success(None)
    ensures r.Success? && r.value.Some? ==> !Expired(r.value.value, now, lifetime) && m.Some?
                                            && FromDict(m.value, parse) == Success(r.value.value)
    ensures m.Some? ==> (r.Failure? <==> FromDict(m.value, parse).Failure?)
    ensures m.Some? && FromDict(m.value, parse).Success? && Expired(FromDict(m.value, parse).value, now, lifetime)
            ==> r == Success(None)
  {
    match m
    case None => Success(None)
    case Some(d) =>
      match FromDict(d, parse)
      case Failure(e) => Failure(e)
      case Success(l) => if Expired(l, now, lifetime) then Success(None) else Success(Some(l))
  }

  /** The `lock` deleter: safe whether or not a lock is stored. */
  function DeleteLock(m: LockMeta): (r: LockMeta)
    ensures r.None?
  {
    None
  }

  /** `set_lock(user)`: a live lock held by someone other than `user` is a RuntimeError;
      otherwise a new lock is stored. The new lock names the current user, who is not
      necessarily the `user` the ownership check used. */
  function SetLock(m: LockMeta, userId: int, currentId: int, currentName: string, now: int, lifetime: int,
                   parse: string -> Option<int>, format: int -> string): (r: Result<LockMeta, LockError>)
    ensures r.Failure? <==> (GetLock(m, now, lifetime, parse).Failure?
                             || (GetLock(m, now, lifetime, parse).value.Some?
                                 && !IsOwner(GetLock(m, now, lifetime, parse).value.value, userId)))
    ensures r.Success? ==> r.value == Some(AsDict(Lock(currentId, currentName, now), format))
  {
    var current :- GetLock(m, now, lifetime, parse);
    if current.Some? && !IsOwner(current.value, userId) then Failure(RuntimeError)
    else Success(Some(AsDict(Lock(currentId, currentName, now), format)))
  }

  /** The `lock` setter: None releases the lock, a user takes it. */
  function AssignLock(m: LockMeta, user: Option<int>, currentId: int, currentName: string, now: int, lifetime: int,
                      parse: string -> Option<int>, format: int -> string): (r: Result<LockMeta, LockError>)
    ensures user.None? ==> r == Success(None)
    ensures user.Some? ==> r == SetLock(m, user.value, currentId, currentName, now, lifetime, parse, format)
  {
    match user
    case None => Success(DeleteLock(m))
    case Some(u) => SetLock(m, u, currentId, currentName, now, lifetime, parse, format)
  }

  /** Right after a successful `set_lock`, reading the lock gives the current user's new lock;
      an expired or absent lock never blocks it, and the holder can always renew. */
  lemma SetLockThenGet(m: LockMeta, userId: int, currentId: int, currentName: string, now: int, lifetime: int,
                       parse: string -> Option<int>, format: int -> string)
    requires lifetime >= 0 && forall t :: parse(format(t)) == Some(t)
    ensures var r := SetLock(m, userId, currentId, currentName, now, lifetime, parse, format);
            r.Success? ==> GetLock(r.value, now, lifetime, parse) == Success(Some(Lock(currentId, currentName, now)))
    ensures GetLock(m, now, lifetime, parse) == Success(None) ==>
              SetLock(m, userId, currentId, currentName, now, lifetime, parse, format).Success?
    ensures GetLock(m, now, lifetime, parse).Success? && GetLock(m, now, lifetime, parse).value.Some?
            && GetLock(m, now, lifetime, parse).value.value.userId == userId ==>
              SetLock(m, userId, currentId, currentName, now, lifetime, parse, format).Success?
  {
    LockRoundTrip(Lock(currentId, currentName, now), format, parse);
  }
}
