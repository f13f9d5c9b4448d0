/** The upload form (`UploadFile`): deriving the file type from the chosen
    file's name, editing fields, and the checks and renaming done before the
    single upload request. */
module UploadFile {
  import opened Wrappers
  import opened JsString

  /** `formData`: every field is text. */
  datatype Form = Form(
    id: string, title: string, author: string, publisher: string, pubDate: string,
    language: string, totalPages: string, fileType: string, dateTime: string)

  /** The form as first shown and after a reset: a fresh id, English, and
      today's date; `newId` and `today` come from the clock and the random
      source. */
  function InitialForm(newId: string, today: string): (f: Form)
    ensures f.id == newId && f.dateTime == today && f.language == "English"
    ensures f.title == "" && f.author == "" && f.publisher == "" && f.pubDate == ""
    ensures f.totalPages == "" && f.fileType == ""
  {
    Form(newId, "", "", "", "", "English", "", "", today)
  }

  /** The `name` attributes of the form's inputs and selects. */
  datatype Field = Title | Author | Publisher | PubDate | Language | TotalPages | FileType

  /** A browser `File`: its name and MIME type. */
  datatype File = File(name: string, mime: string)

  /** The component state. */
  datatype Upload = Upload(form: Form, bookFile: Option<File>, coverFile: Option<File>, dragActive: bool)

  /** `mimeToType`: known extensions map to themselves. */
  const KnownTypes: map<string, string> := map["pdf" := "pdf", "epub" := "epub", "mobi" := "mobi", "txt" := "txt"]

  /** The value of a named field. */
  function Get(f: Form, field: Field): string {
    match field
    case Title => f.title
    case Author => f.author
    case Publisher => f.publisher
    case PubDate => f.pubDate
    case Language => f.language
    case TotalPages => f.totalPages
    case FileType => f.fileType
  }

  /** `handleChange`: `{ ...prev, [name]: value }`. */
  function HandleChange(f: Form, field: Field, value: string): (r: Form)
    ensures Get(r, field) == value
    ensures forall other :: other != field ==> Get(r, other) == Get(f, other)
    ensures r.id == f.id && r.dateTime == f.dateTime
  {
    match field
    case Title => f.(title := value)
    case Author => f.(author := value)
    case Publisher => f.(publisher := value)
    case PubDate => f.(pubDate := value)
    case Language => f.(language := value)
    case TotalPages => f.(totalPages := value)
    case FileType => f.(fileType := value)
  }

  /** The `fileType` both book-file handlers derive: the lower-cased last
      '.'-segment, looked up in `mimeToType`, "" for an empty segment. */
  function DetectFileType(name: string): (t: string)
    ensures t == ToLower(LastSegment(name))
    ensures '.' !in t
  {
    var ext := ToLower(LastSegment(name));
    ToLowerKeepsOut(LastSegment(name), '.');
    if ext == "" then ""
    else if ext in KnownTypes then KnownTypes[ext]
    else ext
  }

  /** A name without '.' gives the whole name lower-cased. */
  lemma FileTypeWithoutDot(name: string)
    requires '.' !in name
    ensures DetectFileType(name) == ToLower(name)
  {
    LastSegmentNoDot(name);
  }

  /** A name ending in '.' gives "". */
  lemma FileTypeTrailingDot(name: string)
    requires name != [] && name[|name| - 1] == '.'
    ensures DetectFileType(name) == ""
  {
  }

  /** `handleDropBook`: ends the drag, and takes the first dropped file, if any. */
  function DropBook(u: Upload, files: seq<File>): (r: Upload)
    ensures !r.dragActive && r.coverFile == u.coverFile
    ensures files == [] ==> r.form == u.form && r.bookFile == u.bookFile
    ensures files != [] ==> r.bookFile == Some(files[0])
    ensures files != [] ==> r.form == u.form.(fileType := ToLower(LastSegment(files[0].name)))
  {
    var u' := u.(dragActive := false);
    if files == [] then u'
    else u'.(bookFile := Some(files[0]), form := u.form.(fileType := DetectFileType(files[0].name)))
  }

  /** `handleBookInput`: takes the first chosen file, if any. */
  function InputBook(u: Upload, files: seq<File>): (r: Upload)
    ensures r.dragActive == u.dragActive && r.coverFile == u.coverFile
    ensures files == [] ==> r == u
    ensures files != [] ==> r.bookFile == Some(files[0])
    ensures files != [] ==> r.form == u.form.(fileType := ToLower(LastSegment(files[0].name)))
  {
    if files == [] then u
    else u.(bookFile := Some(files[0]), form := u.form.(fileType := DetectFileType(files[0].name)))
  }

  /** The two handlers agree on the chosen file and the derived type. */
  lemma DropAndInputAgree(u: Upload, files: seq<File>)
    requires files != []
    ensures DropBook(u, files).form == InputBook(u, files).form
    ensures DropBook(u, files).bookFile == InputBook(u, files).bookFile
  {
  }

  /** `handleCoverInput`: takes the first chosen image, if any. */
  function InputCover(u: Upload, files: seq<File>): (r: Upload)
    ensures files != [] ==> r.coverFile == Some(files[0])
    ensures files == [] ==> r == u
    ensures r.form == u.form && r.bookFile == u.bookFile
  {
    if files == [] then u else u.(coverFile := Some(files[0]))
  }

  /** The message shown when the guard stops an upload. */
  const FillRequiredMessage: string := "Please fill required fields and select book file."

  /** One file part of the multipart request. */
  datatype Part = Part(fileName: string, mime: string)

  /** The single POST: the renamed book, the renamed cover if any, and the form as JSON. */
  datatype Request = Request(book: Part, cover: Option<Part>, bookData: Form)

  /** What `handleUpload` does before awaiting the server. */
  datatype Action = Rejected(message: string) | Send(request: Request)

  /** `${id}.${ext}` with `ext` the last '.'-segment of the original name, case kept. */
  function Renamed(id: string, name: string): (r: string)
    ensures r == id + "." + LastSegment(name)
  {
    id + "." + LastSegment(name)
  }

  /** `handleUpload` up to the request: no book file or an empty title (not
      trimmed) stops with a message; otherwise both files are renamed after
      the form id and the cover part is present only with a cover. */
  function HandleUpload(u: Upload): (a: Action)
    ensures a.Rejected? <==> u.bookFile.None? || u.form.title == ""
    ensures a.Rejected? ==> a.message == FillRequiredMessage
    ensures a.Send? ==> && a.request.book == Part(Renamed(u.form.id, u.bookFile.value.name), u.bookFile.value.mime)
                        && a.request.bookData == u.form
                        && (a.request.cover.Some? <==> u.coverFile.Some?)
    ensures a.Send? && u.coverFile.Some? ==>
              a.request.cover.value == Part(Renamed(u.form.id, u.coverFile.value.name), u.coverFile.value.mime)
  {
    if u.bookFile.None? || u.form.title == "" then Rejected(FillRequiredMessage)
    else
      var book := u.bookFile.value;
      var cover := match u.coverFile
        case None => None
        case Some(c) => Some(Part(Renamed(u.form.id, c.name), c.mime));
      Send(Request(Part(Renamed(u.form.id, book.name), book.mime), cover, u.form))
  }

  /** A blank title passes the guard, since it is not trimmed. */
  lemma BlankTitlePasses(u: Upload)
    requires u.bookFile.Some? && u.form.title == " "
    ensures HandleUpload(u).Send?
  {
  }

  /** Renaming keeps the extension: the uploaded name's last segment is the
      original's, and so is the derived file type. */
  lemma RenamingKeepsExtension(id: string, name: string)
    ensures LastSegment(Renamed(id, name)) == LastSegment(name)
    ensures DetectFileType(Renamed(id, name)) == DetectFileType(name)
  {
    LastSegmentAfterDot(id, LastSegment(name));
  }

  /** How the single POST ends. */
  datatype Response = Accepted | HttpError(status: nat) | NetworkError(reason: Option<string>)

  const SuccessMessage: string := "\U{2705} Upload Successful!"
  const FailurePrefix: string := "\U{274C} Upload Failed: "
  /** The text of the error thrown for a non-OK status, before the status. */
  const HttpFailure: string := "Upload failed: "

  /** The number a string of decimal digits denotes. */
  function Value(s: string): nat
    requires forall i :: 0 <= i < |s| ==> '0' <= s[i] <= '9'
    decreases |s|
  {
    if s == [] then 0 else Value(s[..|s| - 1]) * 10 + (s[|s| - 1] as int - '0' as int)
  }

  /** The decimal digits of a status code, as a template literal prints it:
      no leading zero, and denoting the code. */
  function Digits(n: nat): (s: string)
    ensures |s| >= 1 && forall i :: 0 <= i < |s| ==> '0' <= s[i] <= '9'
    ensures Value(s) == n
    ensures n > 0 ==> s[0] != '0'
    ensures n == 0 ==> s == "0"
    decreases n
  {
    if n < 10 then [('0' as int + n) as char]
    else
      var hi := Digits(n / 10);
      var s := hi + [('0' as int + n % 10) as char];
      assert s[..|s| - 1] == hi;
      s
  }

  /** The message after the request: success only for an accepted upload;
      a non-OK status is thrown as `Upload failed: <status>` and caught like
      any other error, whose text follows the failure prefix. */
  function UploadMessage(resp: Response): (m: string)
    ensures resp.Accepted? <==> m == SuccessMessage
    ensures !resp.Accepted? ==> FailurePrefix <= m
    ensures resp.HttpError? ==> m[|FailurePrefix|..] == HttpFailure + Digits(resp.status)
    ensures resp == NetworkError(None) ==> m[|FailurePrefix|..] == "Unknown error"
    ensures resp.NetworkError? && resp.reason.Some? ==> m == FailurePrefix + resp.reason.value
  {
    assert SuccessMessage[0] != FailurePrefix[0];
    match resp
    case Accepted => SuccessMessage
    case HttpError(status) => FailurePrefix + HttpFailure + Digits(status)
    case NetworkError(None) => FailurePrefix + "Unknown error"
    case NetworkError(Some(reason)) => FailurePrefix + reason
  }

  /** The status of a rejected upload can be read back from the message. */
  lemma StatusReadBack(status: nat)
    ensures var m := UploadMessage(HttpError(status));
            && |FailurePrefix + HttpFailure| <= |m|
            && (forall i :: |FailurePrefix + HttpFailure| <= i < |m| ==> '0' <= m[i] <= '9')
            && Value(m[|FailurePrefix + HttpFailure|..]) == status
  {
    var m := UploadMessage(HttpError(status));
    var k := |FailurePrefix + HttpFailure|;
    assert m == (FailurePrefix + HttpFailure) + Digits(status);
    assert m[k..] == Digits(status);
  }

  /** The reset two seconds after a success: files cleared, a fresh form. */
  function Reset(u: Upload, newId: string, today: string): (r: Upload)
    ensures r.bookFile == None && r.coverFile == None
    ensures r.form == InitialForm(newId, today)
    ensures r.dragActive == u.dragActive
  {
    u.(form := InitialForm(newId, today), bookFile := None, coverFile := None)
  }

  /** After a reset the guard stops a repeated upload until a book file and a
      title are given again. */
  lemma ResetRejects(u: Upload, newId: string, today: string)
    ensures HandleUpload(Reset(u, newId, today)) == Rejected(FillRequiredMessage)
  {
  }
}
