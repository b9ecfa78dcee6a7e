/** `POST /api/upload`: formidable parses the multipart body and stores the
    file in the upload directory; the handler turns the outcome into one
    response. The parse is an input: the files it produced, keyed by form
    field, or the value it threw. */
module UploadApi {

  import opened Wrappers
  import NodePath

  /** `maxFileSize` given to formidable: 5 MiB. */
  const MaxFileSize: nat := 5 * 1024 * 1024

  /** The options the handler passes to formidable, without the directory. */
  datatype FormOptions = FormOptions(keepExtensions: bool, maxFileSize: nat)

  /** A stored upload; only the path formidable wrote it to is used. */
  datatype PersistentFile = PersistentFile(filepath: string)

  /** A form field holds one file or an array of them. */
  datatype FileField = Single(file: PersistentFile) | Multiple(files: seq<PersistentFile>)

  /** The `code` of a thrown error, as compared with formidable's error
      table; only the one for an oversized file matters. */
  datatype ErrorCode = NoCode | BiggerThanMaxFileSize | OtherCode(name: string)

  /** A thrown value: an `Error` instance, or anything else. */
  datatype Thrown = ErrorInstance(code: ErrorCode, message: string) | NonError(text: string)

  datatype ParseOutcome = Parsed(files: map<string, FileField>) | Threw(error: Thrown)

  datatype Body =
    | Message(message: string)
    | Uploaded(message: string, url: string)
    | ErrorDetail(message: string, error: string)

  datatype Reply = Reply(status: nat, body: Body)

  const UploadsPrefix: string := "/uploads/"

  /** The `TypeError` V8 raises when the handler reads `filepath` of the
      missing first element of an empty array. */
  const UndefinedFilepath: string := "Cannot read properties of undefined (reading 'filepath')"

  function FormConfig(): (o: FormOptions)
    ensures o.keepExtensions
    ensures o.maxFileSize == 5242880 && o.maxFileSize / (1024 * 1024) == 5
  {
    FormOptions(true, MaxFileSize)
  }

  /** `Array.isArray(field) ? field[0] : field`: nothing when the array is
      empty. */
  function FirstFile(field: FileField): (r: Option<PersistentFile>)
    ensures field.Single? ==> r == Some(field.file)
    ensures field.Multiple? ==>
      (r.None? <==> field.files == []) && (r.Some? ==> r.value == field.files[0])
  {
    match field
    case Single(f) => Some(f)
    case Multiple(fs) => if fs == [] then None else Some(fs[0])
  }

  /** The `catch` block: 413 for formidable's oversized-file error, 500 with
      the error's message or text otherwise. */
  function Caught(e: Thrown): (r: Reply)
    ensures r.status == 413 <==> e.ErrorInstance? && e.code == BiggerThanMaxFileSize
    ensures r.status == 413 ==> r.body == Message("File size too large (max 5MB).")
    ensures r.status != 413 ==>
      r == Reply(500, ErrorDetail("Something went wrong", if e.ErrorInstance? then e.message else e.text))
  {
    match e
    case ErrorInstance(code, message) =>
      if code == BiggerThanMaxFileSize then Reply(413, Message("File size too large (max 5MB)."))
      else Reply(500, ErrorDetail("Something went wrong", message))
    case NonError(text) => Reply(500, ErrorDetail("Something went wrong", text))
  }

  /** The handler (`verb` is the request method). */
  function Handle(verb: string, parse: ParseOutcome): (r: Reply)
    ensures r.status in {200, 400, 405, 413, 500}
    ensures r.status == 405 <==> verb != "POST"
    ensures r.status == 400 <==> verb == "POST" && parse.Parsed? && "file" !in parse.files
    ensures r.status == 413 <==>
      verb == "POST" && parse.Threw? && parse.error.ErrorInstance? && parse.error.code == BiggerThanMaxFileSize
    ensures r.status == 200 <==>
      verb == "POST" && parse.Parsed? && "file" in parse.files && FirstFile(parse.files["file"]).Some?
    ensures r.status == 405 ==> r.body == Message("Method Not Allowed")
    ensures r.status == 400 ==> r.body == Message("No file uploaded.")
    ensures verb == "POST" && parse.Threw? ==> r == Caught(parse.error)
    ensures verb == "POST" && parse.Parsed? && "file" in parse.files && FirstFile(parse.files["file"]).None? ==>
      r == Caught(ErrorInstance(NoCode, UndefinedFilepath))
    ensures r.status == 200 ==>
      r.body == Uploaded("File uploaded successfully",
                         UploadsPrefix + NodePath.Basename(FirstFile(parse.files["file"]).value.filepath))
  {
    if verb != "POST" then Reply(405, Message("Method Not Allowed"))
    else match parse
      case Threw(e) => Caught(e)
      case Parsed(files) =>
        if "file" !in files then Reply(400, Message("No file uploaded."))
        else match FirstFile(files["file"])
          case None => Caught(ErrorInstance(NoCode, UndefinedFilepath))
          case Some(f) =>
            Reply(200, Uploaded("File uploaded successfully", UploadsPrefix + NodePath.Basename(f.filepath)))
  }

  /** Nothing but the method is looked at when it is not POST: the body is
      never parsed. */
  lemma WrongMethodIgnoresBody(verb: string, p: ParseOutcome, q: ParseOutcome)
    requires verb != "POST"
    ensures Handle(verb, p) == Handle(verb, q) == Reply(405, Message("Method Not Allowed"))
  {
  }

  /** A successful upload's URL is `/uploads/` followed by one path segment:
      no further `/`. */
  lemma UploadUrlShape(verb: string, parse: ParseOutcome)
    requires Handle(verb, parse).status == 200
    ensures var url := Handle(verb, parse).body.url;
      |url| >= |UploadsPrefix| && url[..|UploadsPrefix|] == UploadsPrefix
      && '/' !in url[|UploadsPrefix|..]
  {
    var b := NodePath.Basename(FirstFile(parse.files["file"]).value.filepath);
    var url := UploadsPrefix + b;
    assert Handle(verb, parse).body.url == url;
    assert url[..|UploadsPrefix|] == UploadsPrefix;
    assert url[|UploadsPrefix|..] == b;
  }

  /** Only the `file` field decides the response: other fields are ignored. */
  lemma OnlyFileFieldMatters(verb: string, a: map<string, FileField>, b: map<string, FileField>)
    requires ("file" in a) == ("file" in b)
    requires "file" in a ==> a["file"] == b["file"]
    ensures Handle(verb, Parsed(a)) == Handle(verb, Parsed(b))
  {
  }

  /** Of an array, only the first file decides the response. */
  lemma FirstOfArrayDecides(verb: string, files: map<string, FileField>, f: PersistentFile, more: seq<PersistentFile>)
    ensures Handle(verb, Parsed(files["file" := Multiple([f] + more)]))
         == Handle(verb, Parsed(files["file" := Single(f)]))
  {
  }

  /** A file formidable stored as `<dir>/<name>` is reported at
      `/uploads/<name>`. */
  lemma StoredFileUrl(dir: string, name: string, files: map<string, FileField>)
    requires name != [] && '/' !in name
    requires "file" in files && FirstFile(files["file"]) == Some(PersistentFile(dir + "/" + name))
    ensures Handle("POST", Parsed(files)) == Reply(200, Uploaded("File uploaded successfully", UploadsPrefix + name))
  {
    NodePath.BasenameOfChild(dir, name);
  }
}
