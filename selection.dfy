/**
 * Choosing the files a POST ingests from the decoder's `files` mapping.
 */
module Selection {
  import opened Wrappers
  import opened Entities

  /** The value under one name of the decoder's `files`: an array of files, or anything else. */
  datatype Field = FileArray(files: seq<UploadFile>) | NotAnArray

  /** The field names whose files are ingested, in the order they are taken. */
  const EnabledNames: seq<string> := ["image", "background"]

  /** The files under `name`, or none when the entry is missing or not an array. */
  function FilesUnder(m: map<string, Field>, name: string): seq<UploadFile>
  {
    if name in m && m[name].FileArray? then m[name].files else []
  }

  /** The files of every name in `names`, concatenated in the order of `names`. */
  function Gather(m: map<string, Field>, names: seq<string>): (r: seq<UploadFile>)
    ensures |names| == 1 ==> r == FilesUnder(m, names[0])
  {
    if names == [] then [] else Gather(m, names[..|names| - 1]) + FilesUnder(m, names[|names| - 1])
  }

  /** The working set: the image files followed by the background files. */
  function Selected(m: map<string, Field>): seq<UploadFile>
  {
    Gather(m, EnabledNames)
  }

  /** Selection is a union in name order, not the first name that matches. */
  lemma {:induction false} SelectedIsUnion(m: map<string, Field>)
    ensures Selected(m) == FilesUnder(m, "image") + FilesUnder(m, "background")
  {
    assert EnabledNames[..1] == ["image"];
    assert Gather(m, ["image"]) == FilesUnder(m, "image");
  }

  /**
   * The selection loop of the POST handler followed by its non-empty
   * assertion: every array-valued entry of the enabled names is appended.
   */
  method SelectFiles(m: map<string, Field>) returns (r: Result<seq<UploadFile>, Error>)
    ensures r.Success? <==> FilesUnder(m, "image") != [] || FilesUnder(m, "background") != []
    ensures r.Success? ==> r.value == FilesUnder(m, "image") + FilesUnder(m, "background")
    ensures r.Failure? ==> r.error == NoFiles
    ensures r.Success? ==> r.value == Selected(m)
  {
    var files: seq<UploadFile> := [];
    for i := 0 to |EnabledNames|
      invariant files == Gather(m, EnabledNames[..i])
    {
      var name := EnabledNames[i];
      if name in m && m[name].FileArray? {
        files := files + m[name].files;
      }
      assert EnabledNames[..i + 1][..i] == EnabledNames[..i];
    }
    assert EnabledNames[..|EnabledNames|] == EnabledNames;
    SelectedIsUnion(m);
    if |files| < 1 {
      return Failure(NoFiles);
    }
    return Success(files);
  }
}
