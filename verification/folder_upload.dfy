/** The upload dialog of a folder (static/js/folder_upload.js, both variants, which behave
    alike): the error messages, the form data sent with each file, the state of each file's
    line in the dialog, and the page reload when every upload is over.

    The dialog is a value and the upload widget's events are the steps it takes. A file's
    line is the classes of its status icon and of its status element, and its progress bar
    or the error text that replaced it. */
module FolderUpload {
  import opened Wrappers

  datatype Messages = Messages(fileUploadError: string, fileTooLargeError: string)

  const DefaultMessages: Messages :=
    Messages("Error - File not uploaded", "Error: maximum file size exceeded")

  /** The defaults, each overridden by the caller's message of the same key (`$.extend`);
      no messages at all (`messages || {}`) keeps the defaults. */
  function ErrorMessages(messages: Option<map<string, string>>): (r: Messages)
    ensures messages.Some? && "fileUploadError" in messages.value ==> r.fileUploadError == messages.value["fileUploadError"]
    ensures !(messages.Some? && "fileUploadError" in messages.value) ==> r.fileUploadError == DefaultMessages.fileUploadError
    ensures messages.Some? && "fileTooLargeError" in messages.value ==> r.fileTooLargeError == messages.value["fileTooLargeError"]
    ensures !(messages.Some? && "fileTooLargeError" in messages.value) ==> r.fileTooLargeError == DefaultMessages.fileTooLargeError
  {
    var m := messages.GetOr(map[]);
    Messages(if "fileUploadError" in m then m["fileUploadError"] else DefaultMessages.fileUploadError,
             if "fileTooLargeError" in m then m["fileTooLargeError"] else DefaultMessages.fileTooLargeError)
  }

  /** The data posted with each file: the upload action and the CSRF token under the
      application's field name (which wins should it be "action"). */
  function FormData(csrfFieldName: string, csrfToken: string): (r: map<string, string>)
    ensures r.Keys == {"action", csrfFieldName}
    ensures r[csrfFieldName] == csrfToken
    ensures csrfFieldName != "action" ==> r["action"] == "upload"
  {
    map["action" := "upload"][csrfFieldName := csrfToken]
  }

  datatype Progress = Bar(width: Option<string>) | ErrorText(text: string)

  /** A file's line: the classes of its status icon and status element, and its progress. */
  datatype FileUi = FileUi(icon: set<string>, status: set<string>, progress: Progress)

  /** The dialog: the messages, whether some upload failed, and the files in the queue. */
  datatype Dialog = Dialog(messages: Messages, hasErrors: bool, files: map<nat, FileUi>)

  /** `setupModalFolderUpload`: no error yet and an empty queue. */
  function Setup(messages: Option<map<string, string>>): (d: Dialog)
    ensures !d.hasErrors && d.files == map[]
    ensures d.messages == ErrorMessages(messages)
  {
    Dialog(ErrorMessages(messages), false, map[])
  }

  /** The text that replaces the progress bar of a failed upload. */
  function ErrorMessage(m: Messages, status: int): (r: string)
    ensures status == 413 ==> r == m.fileTooLargeError
    ensures status != 413 ==> r == m.fileUploadError
  {
    if status == 413 then m.fileTooLargeError else m.fileUploadError
  }

  /** The line of a failed upload: the warning icon in red, and the error text in place of
      the progress bar (once replaced, there is no bar left to replace). */
  function FailedUi(f: FileUi, text: string): (r: FileUi)
    ensures "glyphicon-upload" !in r.icon && "glyphicon-warning-sign" in r.icon && "text-danger" in r.icon
    ensures f.progress.Bar? ==> r.progress == ErrorText(text)
    ensures f.progress.ErrorText? ==> r.progress == f.progress
    ensures r.status == f.status
  {
    FileUi(f.icon - {"glyphicon-upload"} + {"glyphicon-warning-sign", "text-danger"}, f.status,
           if f.progress.Bar? then ErrorText(text) else f.progress)
  }

  /** The line of a file whose upload started: the upload icon, and the status shown. */
  function StartedUi(f: FileUi): (r: FileUi)
    ensures "glyphicon-upload" in r.icon && "hidden" !in r.status
    ensures r.progress == f.progress
  {
    f.(icon := f.icon + {"glyphicon-upload"}, status := f.status - {"hidden"})
  }

  /** The line of a file whose upload completed: the ok icon, the success style, and a full
      progress bar (when the bar is still there). */
  function CompletedUi(f: FileUi): (r: FileUi)
    ensures "glyphicon-upload" !in r.icon && "glyphicon-ok" in r.icon
    ensures "btn-default" !in r.status && "btn-success" in r.status
    ensures f.progress.Bar? ==> r.progress == Bar(Some("100%"))
    ensures f.progress.ErrorText? ==> r.progress == f.progress
  {
    FileUi(f.icon - {"glyphicon-upload"} + {"glyphicon-ok"}, f.status - {"btn-default"} + {"btn-success"},
           if f.progress.Bar? then Bar(Some("100%")) else f.progress)
  }

  /** The widget's events: a file queued (drawn from the line template), the per-file
      "fileupload"/"filecomplete" events, the end of all uploads, and the modal hidden. */
  datatype Event =
    | Queued(uid: nat, line: FileUi)
    | FileEvent(kind: string, uid: nat, error: bool, status: int)
    | Complete
    | Hidden

  function UpdateLine(d: Dialog, uid: nat, f: FileUi -> FileUi): (r: map<nat, FileUi>)
    ensures r.Keys == d.files.Keys
    ensures uid in d.files ==> r[uid] == f(d.files[uid])
    ensures forall u :: u in d.files && u != uid ==> r[u] == d.files[u]
  {
    if uid in d.files then d.files[uid := f(d.files[uid])] else d.files
  }

  /** `onUploadComplete`: a failed upload sets `hasErrors` and marks its line, whatever the
      event; otherwise "fileupload" and "filecomplete" update the line and any other event
      changes nothing. */
  function OnUploadComplete(d: Dialog, kind: string, uid: nat, error: bool, status: int): (r: Dialog)
    ensures r.hasErrors <==> d.hasErrors || error
    ensures r.messages == d.messages && r.files.Keys == d.files.Keys
    ensures forall u :: u in d.files && u != uid ==> r.files[u] == d.files[u]
    ensures uid in d.files && error ==> r.files[uid] == FailedUi(d.files[uid], ErrorMessage(d.messages, status))
    ensures uid in d.files && !error && kind == "fileupload" ==> r.files[uid] == StartedUi(d.files[uid])
    ensures uid in d.files && !error && kind == "filecomplete" ==> r.files[uid] == CompletedUi(d.files[uid])
    ensures !error && kind != "fileupload" && kind != "filecomplete" ==> r == d
  {
    if error then
      var text := ErrorMessage(d.messages, status);
      d.(hasErrors := true, files := UpdateLine(d, uid, f => FailedUi(f, text)))
    else if kind == "fileupload" then d.(files := UpdateLine(d, uid, StartedUi))
    else if kind == "filecomplete" then d.(files := UpdateLine(d, uid, CompletedUi))
    else d
  }

  /** One event: the dialog after it, and whether the page reloads. The page reloads at the
      end of the uploads exactly when none failed; hiding the modal forgets the errors and
      empties the queue. */
  function Step(d: Dialog, e: Event): (r: (Dialog, bool))
    ensures r.1 <==> e.Complete? && !d.hasErrors
    ensures e.Hidden? ==> !r.0.hasErrors && r.0.files == map[]
    ensures e.Complete? ==> r.0 == d
    ensures e.Queued? ==> r.0.hasErrors == d.hasErrors
    ensures e.FileEvent? ==> r.0.hasErrors == (d.hasErrors || e.error)
    ensures r.0.messages == d.messages
  {
    match e
    case Queued(uid, line) => (d.(files := d.files[uid := line]), false)
    case FileEvent(kind, uid, error, status) => (OnUploadComplete(d, kind, uid, error, status), false)
    case Complete => (d, !d.hasErrors)
    case Hidden => (d.(hasErrors := false, files := map[]), false)
  }

  /** The dialog after a sequence of events. */
  function Run(d: Dialog, es: seq<Event>): Dialog
    decreases |es|
  {
    if |es| == 0 then d else Step(Run(d, es[..|es| - 1]), es[|es| - 1]).0
  }

  predicate IsError(e: Event) {
    e.FileEvent? && e.error
  }

  /** Whether some upload failed after the last time the modal was hidden. */
  predicate ErrorSinceHidden(es: seq<Event>) {
    exists i :: 0 <= i < |es| && IsError(es[i]) && forall j :: i < j < |es| ==> !es[j].Hidden?
  }

  /** The error flag is set exactly when some upload failed since the modal was last hidden
      (or it was set at the start and the modal was never hidden). */
  lemma {:induction false} RunHasErrors(d: Dialog, es: seq<Event>)
    ensures Run(d, es).hasErrors <==>
              ErrorSinceHidden(es) || (d.hasErrors && forall j :: 0 <= j < |es| ==> !es[j].Hidden?)
    decreases |es|
  {
    if |es| > 0 {
      var n := |es| - 1;
      var init := es[..n];
      RunHasErrors(d, init);
      assert forall j :: 0 <= j < n ==> init[j] == es[j];
      if es[n].Hidden? {
        assert !ErrorSinceHidden(es) by {
          forall i | 0 <= i < |es| && IsError(es[i])
            ensures exists j :: i < j < |es| && es[j].Hidden?
          {
            assert i != n;
            assert i < n;
          }
        }
      } else if IsError(es[n]) {
        assert 0 <= n < |es| && IsError(es[n]);
      } else {
        assert ErrorSinceHidden(es) <==> ErrorSinceHidden(init) by {
          if ErrorSinceHidden(init) {
            var i :| 0 <= i < n && IsError(init[i]) && forall j :: i < j < n ==> !init[j].Hidden?;
            assert IsError(es[i]) && forall j :: i < j < |es| ==> !es[j].Hidden?;
          }
          if ErrorSinceHidden(es) {
            var i :| 0 <= i < |es| && IsError(es[i]) && forall j :: i < j < |es| ==> !es[j].Hidden?;
            assert i < n;
            assert IsError(init[i]) && forall j :: i < j < n ==> !init[j].Hidden?;
          }
        }
      }
    }
  }

  /** At the end of the uploads the page reloads exactly when no upload failed since the
      modal was last hidden (nor before it, from the initial dialog). */
  lemma ReloadIffNoError(messages: Option<map<string, string>>, es: seq<Event>)
    ensures Step(Run(Setup(messages), es), Complete).1 <==> !ErrorSinceHidden(es)
  {
    RunHasErrors(Setup(messages), es);
  }

  /** An error text never turns back into a progress bar: once an upload of a file failed,
      its line shows the error until the file leaves the queue or is queued again. */
  lemma ErrorTextSticks(d: Dialog, e: Event, uid: nat)
    requires uid in d.files && d.files[uid].progress.ErrorText?
    requires !e.Hidden? && !(e.Queued? && e.uid == uid)
    ensures uid in Step(d, e).0.files && Step(d, e).0.files[uid].progress == d.files[uid].progress
  {
  }
}
