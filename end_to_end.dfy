/** How the upload endpoint, the list endpoint and the page fit together:
    a stored upload is listed at the URL the upload reported, and the page
    names its downloads after the stored file and its extension. */
module EndToEnd {

  import opened Wrappers
  import opened Text
  import NodePath
  import MemoriesApi
  import UploadApi
  import MemoriesPage

  /** A file whose upload answered 200 is listed, once the directory
      listing contains its stored name and that name has a supported
      extension, with the URL the upload returned and the type of its
      extension. */
  lemma UploadedFileIsListed(parse: UploadApi.ParseOutcome, names: seq<string>)
    requires UploadApi.Handle("POST", parse).status == 200
    requires NodePath.Basename(UploadApi.FirstFile(parse.files["file"]).value.filepath) in names
    requires MemoriesApi.KindOf(NodePath.Basename(UploadApi.FirstFile(parse.files["file"]).value.filepath)).Some?
    ensures var listed := MemoriesApi.Handle("GET", MemoriesApi.Entries(names));
      listed.status == 200
      && exists m :: m in listed.body.memories && m.url == UploadApi.Handle("POST", parse).body.url
                     && m.kind == MemoriesApi.KindOf(NodePath.Basename(UploadApi.FirstFile(parse.files["file"]).value.filepath)).value
  {
    var stored := NodePath.Basename(UploadApi.FirstFile(parse.files["file"]).value.filepath);
    MemoriesApi.ClassifiedKeepsSupported(names);
    var m := MemoriesApi.Memory(MemoriesApi.KindOf(stored).value, MemoriesApi.UploadsPrefix + stored);
    assert m in MemoriesApi.Classified(names);
  }

  /** A listed memory downloads under the name of the file it was listed
      for. */
  lemma ListedDownloadName(file: string)
    requires '/' !in file
    requires MemoriesApi.ToMemory(file).Some?
    ensures MemoriesPage.DownloadName(MemoriesApi.ToMemory(file).value.url) == file
  {
    MemoriesApi.KeptExtensionShape(file);
    NodePath.ExtNameOfName(file);
    MemoriesPage.DownloadNameOfUpload(file);
  }

  /** The extension the page gives a listed memory's archive entry is the
      one the list endpoint classified it by, with its original case. */
  lemma ListedArchiveExtension(file: string)
    requires '/' !in file
    requires MemoriesApi.KindOf(file).Some?
    ensures MemoriesPage.GetExtension(MemoriesApi.UploadsPrefix + file) == NodePath.ExtName(file)
  {
    MemoriesApi.KeptExtensionShape(file);
    ExtensionSurvivesPrefix(MemoriesApi.UploadsPrefix, file, NodePath.ExtName(file));
  }

  /** A name whose extension `e` is a dot and letters or digits keeps that
      extension, as the page reads it, behind any prefix. */
  lemma ExtensionSurvivesPrefix(prefix: string, file: string, e: string)
    requires '/' !in file
    requires e == NodePath.ExtName(file)
    requires MemoriesPage.IsExtensionText(e)
    ensures MemoriesPage.GetExtension(prefix + file) == e
  {
    NodePath.ExtNameIsSuffix(file, e);
    MemoriesPage.GetExtensionBehindPrefix(prefix, file, e);
  }
}
