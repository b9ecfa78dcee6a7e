/** `GET /api/memories`: lists the upload directory and classifies every
    file by its extension into a photo or an audio memory; other files are
    dropped. The directory listing is an input: the names it returned, or
    the failure it raised. */
module MemoriesApi {

  import opened Wrappers
  import opened Text
  import NodePath
  import Seqs

  datatype MemoryType = Photo | Audio

  /** One `{ type, url }` record of the response. */
  datatype Memory = Memory(kind: MemoryType, url: string)

  /** What `fs.promises.readdir` gave: the entry names, or an error. */
  datatype Listing = Entries(names: seq<string>) | ReadFailure(message: string)

  datatype Body =
    | Message(message: string)
    | Memories(memories: seq<Memory>)
    | ErrorDetail(message: string, error: string)

  datatype Reply = Reply(status: nat, body: Body)

  const PhotoExtensions: set<string> := {".jpg", ".jpeg", ".png", ".gif", ".webp"}
  const AudioExtensions: set<string> := {".mp3", ".wav", ".webm"}

  /** Public path under which the upload directory is served. */
  const UploadsPrefix: string := "/uploads/"

  /** The type a lower-cased extension stands for; photo extensions are
      tried first, but no extension is in both lists. */
  function Classify(ext: string): (r: Option<MemoryType>)
    ensures r == Some(Photo) <==> ext in PhotoExtensions
    ensures r == Some(Audio) <==> ext in AudioExtensions
    ensures r == None <==> ext !in PhotoExtensions + AudioExtensions
  {
    if ext in PhotoExtensions then Some(Photo)
    else if ext in AudioExtensions then Some(Audio)
    else None
  }

  /** The type of a file, from its extension with the case ignored. */
  function KindOf(file: string): (r: Option<MemoryType>)
    ensures r == Some(Photo) <==> Lower(NodePath.ExtName(file)) in PhotoExtensions
    ensures r == Some(Audio) <==> Lower(NodePath.ExtName(file)) in AudioExtensions
  {
    Classify(Lower(NodePath.ExtName(file)))
  }

  /** The callback given to `files.map`: a record for a supported file,
      nothing for any other. */
  function ToMemory(file: string): (r: Option<Memory>)
    ensures r.Some? <==> KindOf(file).Some?
    ensures r.Some? ==> r.value.kind == KindOf(file).value && r.value.url == UploadsPrefix + file
  {
    match KindOf(file)
    case Some(kind) => Some(Memory(kind, UploadsPrefix + file))
    case None => None
  }

  /** `files.map(ToMemory).filter(Boolean)`: the records of the supported
      files. */
  function Classified(files: seq<string>): (r: seq<Memory>)
    ensures |r| <= |files|
  {
    Seqs.FilterMap(ToMemory, files)
  }

  /** The handler: 405 unless the method is GET, whatever the directory
      holds; otherwise 200 with the records of the supported files, or 500
      when the directory could not be read (`verb` is the request method). */
  function Handle(verb: string, readdir: Listing): (r: Reply)
    ensures verb != "GET" ==> r == Reply(405, Message("Method Not Allowed"))
    ensures verb == "GET" && readdir.Entries? ==>
      r == Reply(200, Memories(Classified(readdir.names)))
    ensures verb == "GET" && readdir.ReadFailure? ==>
      r == Reply(500, ErrorDetail("Failed to retrieve memories", readdir.message))
  {
    if verb != "GET" then Reply(405, Message("Method Not Allowed"))
    else match readdir
      case Entries(names) => Reply(200, Memories(Classified(names)))
      case ReadFailure(message) => Reply(500, ErrorDetail("Failed to retrieve memories", message))
  }

  /** Every extension that is kept is a dot followed by lower-case letters
      and digits. */
  lemma SupportedExtensionShape(ext: string)
    requires ext in PhotoExtensions + AudioExtensions
    ensures |ext| >= 2 && ext[0] == '.'
    ensures forall i :: 1 <= i < |ext| ==> IsAlnum(ext[i]) && !('A' <= ext[i] <= 'Z')
  {
  }

  /** A kept file has an extension: a dot followed by one or more ASCII
      letters or digits, in whatever case the name has them. */
  lemma KeptExtensionShape(file: string)
    requires KindOf(file).Some?
    ensures var e := NodePath.ExtName(file);
      |e| >= 2 && e[0] == '.' && (forall i :: 1 <= i < |e| ==> IsAlnum(e[i]))
  {
    var e := NodePath.ExtName(file);
    SupportedExtensionShape(Lower(e));
    forall i | 1 <= i < |e| ensures IsAlnum(e[i]) {
      LowerCharKeepsClass(e[i]);
    }
  }

  /** Two names that differ only in the case of their letters get the same
      type, or are both dropped. */
  lemma KindIgnoresCase(a: string, b: string)
    requires Lower(a) == Lower(b)
    ensures KindOf(a) == KindOf(b)
  {
    NodePath.ExtNameLower(a);
    NodePath.ExtNameLower(b);
  }

  /** Every record comes from a supported file of the listing, with that
      file's type and the URL `/uploads/<file>`. */
  lemma ClassifiedFromSupported(files: seq<string>)
    ensures forall m :: m in Classified(files) ==>
      exists f :: f in files && KindOf(f) == Some(m.kind) && m.url == UploadsPrefix + f
  {
    Seqs.FilterMapMembers(ToMemory, files);
    forall m | m in Classified(files)
      ensures exists f :: f in files && KindOf(f) == Some(m.kind) && m.url == UploadsPrefix + f
    {
      var f :| f in files && ToMemory(f) == Some(m);
    }
  }

  /** Every supported file of the listing has its record in the result. */
  lemma ClassifiedKeepsSupported(files: seq<string>)
    ensures forall f :: f in files && KindOf(f).Some? ==>
      Memory(KindOf(f).value, UploadsPrefix + f) in Classified(files)
  {
    Seqs.FilterMapMembers(ToMemory, files);
    forall f | f in files && KindOf(f).Some?
      ensures Memory(KindOf(f).value, UploadsPrefix + f) in Classified(files)
    {
      assert ToMemory(f) == Some(Memory(KindOf(f).value, UploadsPrefix + f));
    }
  }

  /** The result is empty exactly when no file is supported; an empty
      directory in particular gives an empty list. */
  lemma ClassifiedEmpty(files: seq<string>)
    ensures Classified(files) == [] <==> forall f :: f in files ==> KindOf(f).None?
  {
    Seqs.FilterMapMembers(ToMemory, files);
    assert Classified(files) == [] <==> forall f :: f in files ==> ToMemory(f).None?;
  }

  /** The records of a listing split anywhere are the records of the two
      parts, in the same order: classification keeps the listing order. */
  lemma ClassifiedAppend(a: seq<string>, b: seq<string>)
    ensures Classified(a + b) == Classified(a) + Classified(b)
  {
    Seqs.FilterMapAppend(ToMemory, a, b);
  }

  /** Record i carries the URL of a supported file at some position k of
      the listing, and exactly i records come from the files before k. */
  lemma ClassifiedOrigin(files: seq<string>, i: nat)
    requires i < |Classified(files)|
    ensures exists k :: 0 <= k < |files| && KindOf(files[k]) == Some(Classified(files)[i].kind)
                        && Classified(files)[i].url == UploadsPrefix + files[k]
                        && |Classified(files[..k])| == i
  {
    Seqs.FilterMapOrigin(ToMemory, files, i);
  }
}
