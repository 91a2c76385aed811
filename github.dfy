/** Turning a repository's recursive git tree into file records, in both copies
    of the GitHub client. The two HTTP requests are parameters: the tree is
    given, and `fetch` stands for the contents request of one path. */
module Github {
  import opened Seqs
  import opened Outcomes

  /** One entry of `data["tree"]`: its path, its type ("blob", "tree" for a
      directory, "commit" for a submodule), its size when the API reports
      one, and its API url. */
  datatype TreeEntry = TreeEntry(path: string, entryType: string, size: Option<int>, url: string)

  /** The JSON body of a contents request: an object, which carries a
      `content` key or not, or any other JSON value (a list, for a directory). */
  datatype ContentResponse = JsonObject(content: Option<string>) | JsonOther

  /** What `base64.b64decode(c).decode("utf-8")` gives: the text, a
      `UnicodeDecodeError`, or a base64 error (which nothing catches). */
  datatype Decoded = Utf8Text(text: string) | InvalidUtf8 | InvalidBase64

  /** `file["size"]`: the entry's size, or `KeyError` when it has none. */
  function SizeOf(entry: TreeEntry): (r: Result<int>)
    ensures r.Ok? <==> entry.size.Some?
    ensures r.Ok? ==> entry.size == Some(r.value)
    ensures r.Err? ==> r.error == KeyError("size")
  {
    match entry.size
    case Some(n) => Ok(n)
    case None => Err(KeyError("size"))
  }

  // ---------------------------------------------------------------------------
  // First copy: fetch_github_repository_files and _fetch_github_file

  /** A `GithubFile` of the first copy: a dict that gains its `content` key
      only when the file's bytes decode. */
  datatype FileRecord = FileRecord(path: string, size: int, url: string, content: Option<string>)

  /** `_fetch_github_file` after the request: path, size and url are copied;
      an object response must have `content` (else `KeyError`), whose decoded
      text becomes the record's content unless it is not UTF-8; a response
      that is not an object leaves the record without content. */
  function FetchGithubFile(path: string, size: int, url: string,
                           fetch: string -> Result<ContentResponse>, decode: string -> Decoded): (r: Result<FileRecord>)
    ensures r.Ok? ==> r.value.path == path && r.value.size == size && r.value.url == url
    ensures r.Err? <==> fetch(path).Err? || fetch(path).value == JsonObject(None)
                        || (fetch(path).value.JsonObject? && fetch(path).value.content.Some?
                            && decode(fetch(path).value.content.value) == InvalidBase64)
    ensures r.Ok? && r.value.content.Some? ==>
              fetch(path).value.JsonObject? && fetch(path).value.content.Some?
              && decode(fetch(path).value.content.value) == Utf8Text(r.value.content.value)
    ensures r.Ok? && r.value.content.None? ==>
              fetch(path).value == JsonOther
              || (fetch(path).value.content.Some? && decode(fetch(path).value.content.value) == InvalidUtf8)
  {
    match fetch(path)
    case Err(e) => Err(e)
    case Ok(JsonOther) => Ok(FileRecord(path, size, url, None))
    case Ok(JsonObject(None)) => Err(KeyError("content"))
    case Ok(JsonObject(Some(encoded))) =>
      match decode(encoded)
      case Utf8Text(text) => Ok(FileRecord(path, size, url, Some(text)))
      case InvalidUtf8 => Ok(FileRecord(path, size, url, None))
      case InvalidBase64 => Err(Base64Error)
  }

  /** The entries the generator expression passes on: not a directory, and
      accepted by `file_filter`, in tree order. */
  function Selected(tree: seq<TreeEntry>, fileFilter: string -> bool): (r: seq<TreeEntry>)
    ensures forall e :: e in r <==> e in tree && e.entryType != "tree" && fileFilter(e.path)
    ensures IsSubsequence(r, tree)
  {
    FilterIsSubsequence(tree, (e: TreeEntry) => e.entryType != "tree" && fileFilter(e.path));
    Filter(tree, (e: TreeEntry) => e.entryType != "tree" && fileFilter(e.path))
  }

  /** The default `file_filter`, which accepts every path. */
  function AcceptAll(path: string): bool {
    true
  }

  /** `fetch_github_repository_files` after the tree request. Unpacking the
      generator reads `file["size"]` of every selected entry before any file is
      requested, so a selected entry without a size fails the call with
      `KeyError`; otherwise the requests are gathered in order. */
  function FetchRepositoryFiles(tree: seq<TreeEntry>, fileFilter: string -> bool,
                                fetch: string -> Result<ContentResponse>, decode: string -> Decoded)
    : (r: Result<seq<FileRecord>>)
    ensures (exists e :: e in Selected(tree, fileFilter) && e.size.None?) ==> r == Err(KeyError("size"))
    ensures r.Ok? <==> forall i :: 0 <= i < |Selected(tree, fileFilter)| ==>
                         Selected(tree, fileFilter)[i].size.Some? &&
                         FetchGithubFile(Selected(tree, fileFilter)[i].path, Selected(tree, fileFilter)[i].size.value,
                                         Selected(tree, fileFilter)[i].url, fetch, decode).Ok?
    ensures r.Ok? ==> |r.value| == |Selected(tree, fileFilter)|
    ensures r.Ok? ==> forall i :: 0 <= i < |r.value| ==>
                        var e := Selected(tree, fileFilter)[i];
                        e.size.Some? && r.value[i] == FetchGithubFile(e.path, e.size.value, e.url, fetch, decode).value
  {
    var selected := Selected(tree, fileFilter);
    var sizes := Gather(seq(|selected|, i requires 0 <= i < |selected| => SizeOf(selected[i])));
    if sizes.Err? then
      var i :| 0 <= i < |selected| && SizeOf(selected[i]) == Err(sizes.error);
      Err(sizes.error)
    else
      var requests := seq(|selected|, i requires 0 <= i < |selected| =>
        FetchGithubFile(selected[i].path, sizes.value[i], selected[i].url, fetch, decode));
      assert forall i :: 0 <= i < |selected| ==>
        selected[i].size == Some(sizes.value[i]) &&
        requests[i] == FetchGithubFile(selected[i].path, selected[i].size.value, selected[i].url, fetch, decode);
      Gather(requests)
  }

  /** Each record carries the path, size and url of its tree entry, one record
      per selected entry and in tree order. */
  lemma RecordsCopyTreeEntries(tree: seq<TreeEntry>, fileFilter: string -> bool,
                               fetch: string -> Result<ContentResponse>, decode: string -> Decoded)
    requires FetchRepositoryFiles(tree, fileFilter, fetch, decode).Ok?
    ensures var files, selected := FetchRepositoryFiles(tree, fileFilter, fetch, decode).value, Selected(tree, fileFilter);
            |files| == |selected| &&
            forall i :: 0 <= i < |files| ==>
              files[i].path == selected[i].path && Some(files[i].size) == selected[i].size && files[i].url == selected[i].url
  {
    var files, selected := FetchRepositoryFiles(tree, fileFilter, fetch, decode).value, Selected(tree, fileFilter);
    forall i | 0 <= i < |files|
      ensures files[i].path == selected[i].path && Some(files[i].size) == selected[i].size && files[i].url == selected[i].url
    {
      var e := selected[i];
      assert files[i] == FetchGithubFile(e.path, e.size.value, e.url, fetch, decode).value;
    }
  }

  // ---------------------------------------------------------------------------
  // Second copy: get_github_files and _get_file_content_by_path

  /** The `GithubFile` dataclass of the second copy. */
  datatype GithubFile = GithubFile(path: string, url: string, size: Option<int>, content: string)

  /** `_get_file_content_by_path` after the request: the decoded text of an
      object's `content` (a missing key raises `KeyError`), and `""` when the
      response is not an object or the bytes are not UTF-8. */
  function FileContentByPath(path: string, fetch: string -> Result<ContentResponse>, decode: string -> Decoded)
    : (r: Result<string>)
    ensures fetch(path) == Ok(JsonOther) ==> r == Ok("")
    ensures (fetch(path).Ok? && fetch(path).value.JsonObject? && fetch(path).value.content.Some?
             && decode(fetch(path).value.content.value) == InvalidUtf8) ==> r == Ok("")
    ensures r.Ok? && r.value != "" ==>
              fetch(path).Ok? && fetch(path).value.JsonObject? && fetch(path).value.content.Some?
              && decode(fetch(path).value.content.value) == Utf8Text(r.value)
  {
    match fetch(path)
    case Err(e) => Err(e)
    case Ok(JsonOther) => Ok("")
    case Ok(JsonObject(None)) => Err(KeyError("content"))
    case Ok(JsonObject(Some(encoded))) =>
      match decode(encoded)
      case Utf8Text(text) => Ok(text)
      case InvalidUtf8 => Ok("")
      case InvalidBase64 => Err(Base64Error)
  }

  /** `file["type"] == "tree"` skips the entry, and so does a given filter
      that rejects its path; with no filter every other entry is kept. */
  predicate Wanted(fileFilter: Option<string -> bool>, entry: TreeEntry) {
    entry.entryType != "tree" && (fileFilter.None? || fileFilter.value(entry.path))
  }

  /** The entries the loop does not skip, in tree order. */
  function WantedEntries(tree: seq<TreeEntry>, fileFilter: Option<string -> bool>): (r: seq<TreeEntry>)
    ensures forall e :: e in r <==> e in tree && Wanted(fileFilter, e)
  {
    Filter(tree, (e: TreeEntry) => Wanted(fileFilter, e))
  }

  /** The wanted entries keep their tree order: they are a subsequence of the tree. */
  lemma WantedInTreeOrder(tree: seq<TreeEntry>, fileFilter: Option<string -> bool>)
    ensures IsSubsequence(WantedEntries(tree, fileFilter), tree)
  {
    FilterIsSubsequence(tree, (e: TreeEntry) => Wanted(fileFilter, e));
  }

  /** Both lookups the loop makes for `entry` succeed: its content and its size. */
  predicate Fetchable(entry: TreeEntry, fetch: string -> Result<ContentResponse>, decode: string -> Decoded) {
    FileContentByPath(entry.path, fetch, decode).Ok? && entry.size.Some?
  }

  /** `file` is the `GithubFile` the loop builds for `entry`. */
  predicate Describes(file: GithubFile, entry: TreeEntry, fetch: string -> Result<ContentResponse>, decode: string -> Decoded) {
    file.path == entry.path && file.url == entry.url && file.size == entry.size && entry.size.Some?
    && FileContentByPath(entry.path, fetch, decode) == Ok(file.content)
  }

  /** One file per entry, each describing its entry. */
  predicate DescribesAll(files: seq<GithubFile>, entries: seq<TreeEntry>,
                         fetch: string -> Result<ContentResponse>, decode: string -> Decoded) {
    |files| == |entries| && forall i :: 0 <= i < |files| ==> Describes(files[i], entries[i], fetch, decode)
  }

  /** What `get_github_files` returns after the tree request: one `GithubFile`
      per wanted entry, in tree order. The content request comes first, then
      `file["size"]`, so the first wanted entry that fails, fails the call. */
  function GithubFiles(tree: seq<TreeEntry>, fileFilter: Option<string -> bool>,
                       fetch: string -> Result<ContentResponse>, decode: string -> Decoded)
    : (r: Result<seq<GithubFile>>)
    ensures r.Ok? <==> forall e :: e in WantedEntries(tree, fileFilter) ==> Fetchable(e, fetch, decode)
    ensures r.Ok? ==> DescribesAll(r.value, WantedEntries(tree, fileFilter), fetch, decode)
  {
    if tree == [] then Ok([])
    else
      var e := tree[0];
      assert WantedEntries(tree, fileFilter) == (if Wanted(fileFilter, e) then [e] else []) + WantedEntries(tree[1..], fileFilter);
      if !Wanted(fileFilter, e) then GithubFiles(tree[1..], fileFilter, fetch, decode)
      else
        match FileContentByPath(e.path, fetch, decode)
        case Err(err) => Err(err)
        case Ok(content) =>
          match SizeOf(e)
          case Err(err) => Err(err)
          case Ok(size) =>
            match GithubFiles(tree[1..], fileFilter, fetch, decode)
            case Err(err) => Err(err)
            case Ok(rest) => Ok([GithubFile(e.path, e.url, Some(size), content)] + rest)
  }

  /** No directory is ever listed, and with no filter every file entry is. */
  lemma DirectoriesSkippedFilesKept(tree: seq<TreeEntry>, fileFilter: Option<string -> bool>,
                                     fetch: string -> Result<ContentResponse>, decode: string -> Decoded)
    requires GithubFiles(tree, fileFilter, fetch, decode).Ok?
    ensures forall f :: f in GithubFiles(tree, fileFilter, fetch, decode).value ==>
              exists e :: e in tree && e.entryType != "tree" && e.path == f.path && e.url == f.url
    ensures fileFilter.None? ==>
              forall e :: e in tree && e.entryType != "tree" ==>
                exists f :: f in GithubFiles(tree, fileFilter, fetch, decode).value && f.path == e.path && f.url == e.url
  {
    var files, wanted := GithubFiles(tree, fileFilter, fetch, decode).value, WantedEntries(tree, fileFilter);
    forall f | f in files
      ensures exists e :: e in tree && e.entryType != "tree" && e.path == f.path && e.url == f.url
    {
      var i :| 0 <= i < |files| && files[i] == f;
      assert Describes(files[i], wanted[i], fetch, decode);
      assert wanted[i] in wanted;
    }
    if fileFilter.None? {
      forall e | e in tree && e.entryType != "tree"
        ensures exists f :: f in files && f.path == e.path && f.url == e.url
      {
        assert e in wanted;
        var i :| 0 <= i < |wanted| && wanted[i] == e;
        assert Describes(files[i], wanted[i], fetch, decode);
        assert files[i] in files;
      }
    }
  }

  lemma SkipStep(tree: seq<TreeEntry>, fileFilter: Option<string -> bool>, fetch: string -> Result<ContentResponse>,
                 decode: string -> Decoded, i: nat, prefix: seq<GithubFile>)
    requires i < |tree| && !Wanted(fileFilter, tree[i])
    ensures Prepend(prefix, GithubFiles(tree[i..], fileFilter, fetch, decode))
         == Prepend(prefix, GithubFiles(tree[i + 1..], fileFilter, fetch, decode))
  {
    assert tree[i..][1..] == tree[i + 1..];
  }

  lemma FailStep(tree: seq<TreeEntry>, fileFilter: Option<string -> bool>, fetch: string -> Result<ContentResponse>,
                 decode: string -> Decoded, i: nat, prefix: seq<GithubFile>, err: PyError)
    requires i < |tree| && Wanted(fileFilter, tree[i])
    requires FileContentByPath(tree[i].path, fetch, decode) == Err(err)
             || (FileContentByPath(tree[i].path, fetch, decode).Ok? && SizeOf(tree[i]) == Err(err))
    ensures Prepend(prefix, GithubFiles(tree[i..], fileFilter, fetch, decode)) == Err(err)
  {
  }

  lemma AppendStep(tree: seq<TreeEntry>, fileFilter: Option<string -> bool>, fetch: string -> Result<ContentResponse>,
                   decode: string -> Decoded, i: nat, prefix: seq<GithubFile>, content: string)
    requires i < |tree| && Wanted(fileFilter, tree[i]) && tree[i].size.Some?
    requires FileContentByPath(tree[i].path, fetch, decode) == Ok(content)
    ensures Prepend(prefix, GithubFiles(tree[i..], fileFilter, fetch, decode))
         == Prepend(prefix + [GithubFile(tree[i].path, tree[i].url, tree[i].size, content)],
                    GithubFiles(tree[i + 1..], fileFilter, fetch, decode))
  {
    assert tree[i..][1..] == tree[i + 1..];
    var file := GithubFile(tree[i].path, tree[i].url, tree[i].size, content);
    match GithubFiles(tree[i + 1..], fileFilter, fetch, decode) {
      case Ok(rest) => assert prefix + ([file] + rest) == prefix + [file] + rest;
      case Err(_) =>
    }
  }

  lemma PrependNothing(tree: seq<TreeEntry>, fileFilter: Option<string -> bool>,
                       fetch: string -> Result<ContentResponse>, decode: string -> Decoded)
    ensures Prepend([], GithubFiles(tree[0..], fileFilter, fetch, decode)) == GithubFiles(tree, fileFilter, fetch, decode)
  {
    assert tree[0..] == tree;
    match GithubFiles(tree, fileFilter, fetch, decode) {
      case Ok(v) => assert [] + v == v;
      case Err(_) =>
    }
  }

  /** The loop of `get_github_files`: directories and filtered-out paths are
      skipped with `continue`, every other entry's content is requested and a
      `GithubFile` appended. */
  method GetGithubFiles(tree: seq<TreeEntry>, fileFilter: Option<string -> bool>,
                        fetch: string -> Result<ContentResponse>, decode: string -> Decoded)
    returns (r: Result<seq<GithubFile>>)
    ensures r == GithubFiles(tree, fileFilter, fetch, decode)
  {
    var githubFiles: seq<GithubFile> := [];
    PrependNothing(tree, fileFilter, fetch, decode);
    for i := 0 to |tree|
      invariant GithubFiles(tree, fileFilter, fetch, decode)
             == Prepend(githubFiles, GithubFiles(tree[i..], fileFilter, fetch, decode))
    {
      var file := tree[i];
      if file.entryType == "tree" {
        SkipStep(tree, fileFilter, fetch, decode, i, githubFiles);
        continue;
      }
      if fileFilter.Some? && !fileFilter.value(file.path) {
        SkipStep(tree, fileFilter, fetch, decode, i, githubFiles);
        continue;
      }
      var content := FileContentByPath(file.path, fetch, decode);
      if content.Err? {
        FailStep(tree, fileFilter, fetch, decode, i, githubFiles, content.error);
        return Err(content.error);
      }
      var size := SizeOf(file);
      if size.Err? {
        FailStep(tree, fileFilter, fetch, decode, i, githubFiles, size.error);
        return Err(size.error);
      }
      AppendStep(tree, fileFilter, fetch, decode, i, githubFiles, content.value);
      githubFiles := githubFiles + [GithubFile(file.path, file.url, Some(size.value), content.value)];
    }
    assert tree[|tree|..] == [];
    assert GithubFiles(tree, fileFilter, fetch, decode) == Ok(githubFiles + []);
    assert githubFiles + [] == githubFiles;
    r := Ok(githubFiles);
  }

  // ---------------------------------------------------------------------------
  // The two copies side by side

  /** Both copies pick the same entries: a filter in the first copy acts as the
      same filter given to the second, and the first copy's default filter
      acts as giving the second none. */
  lemma SameSelection(tree: seq<TreeEntry>, fileFilter: string -> bool)
    ensures Selected(tree, fileFilter) == WantedEntries(tree, Some(fileFilter))
    ensures Selected(tree, AcceptAll) == WantedEntries(tree, None)
  {
    SelectedIsWanted(tree, fileFilter);
    SelectedIsWanted(tree, AcceptAll);
    WantedEntriesExtensional(tree, Some(AcceptAll), None);
  }

  lemma SelectedIsWanted(tree: seq<TreeEntry>, fileFilter: string -> bool)
    ensures Selected(tree, fileFilter) == WantedEntries(tree, Some(fileFilter))
  {
    FilterExtensional(tree, (e: TreeEntry) => e.entryType != "tree" && fileFilter(e.path),
                      (e: TreeEntry) => Wanted(Some(fileFilter), e));
  }

  lemma WantedEntriesExtensional(tree: seq<TreeEntry>, f: Option<string -> bool>, g: Option<string -> bool>)
    requires forall e :: Wanted(f, e) == Wanted(g, e)
    ensures WantedEntries(tree, f) == WantedEntries(tree, g)
  {
    FilterExtensional(tree, (e: TreeEntry) => Wanted(f, e), (e: TreeEntry) => Wanted(g, e));
  }

  /** For one file both copies fail on the same responses with the same
      exception; otherwise the second copy's content is the first copy's,
      with `""` where the first leaves `content` out. */
  lemma ContentAgrees(path: string, size: int, url: string,
                      fetch: string -> Result<ContentResponse>, decode: string -> Decoded)
    ensures FetchGithubFile(path, size, url, fetch, decode).Ok? <==> FileContentByPath(path, fetch, decode).Ok?
    ensures FetchGithubFile(path, size, url, fetch, decode).Err? ==>
              FetchGithubFile(path, size, url, fetch, decode).error == FileContentByPath(path, fetch, decode).error
    ensures FetchGithubFile(path, size, url, fetch, decode).Ok? ==>
              FileContentByPath(path, fetch, decode).value == FetchGithubFile(path, size, url, fetch, decode).value.content.GetOr("")
  {
  }

  /** Given the same filter, the first copy succeeds exactly when the second
      does, and then both list the same files with the same path, url, size
      and content (`""` for a record without content). */
  lemma CopiesAgree(tree: seq<TreeEntry>, fileFilter: string -> bool,
                    fetch: string -> Result<ContentResponse>, decode: string -> Decoded)
    ensures FetchRepositoryFiles(tree, fileFilter, fetch, decode).Ok? <==> GithubFiles(tree, Some(fileFilter), fetch, decode).Ok?
    ensures FetchRepositoryFiles(tree, fileFilter, fetch, decode).Ok? ==>
              var records, files := FetchRepositoryFiles(tree, fileFilter, fetch, decode).value,
                                    GithubFiles(tree, Some(fileFilter), fetch, decode).value;
              |records| == |files| &&
              forall i :: 0 <= i < |files| ==>
                files[i] == GithubFile(records[i].path, records[i].url, Some(records[i].size), records[i].content.GetOr(""))
  {
    SameSelection(tree, fileFilter);
    var selected := Selected(tree, fileFilter);
    var first, second := FetchRepositoryFiles(tree, fileFilter, fetch, decode), GithubFiles(tree, Some(fileFilter), fetch, decode);
    if first.Ok? {
      forall e | e in selected
        ensures FileContentByPath(e.path, fetch, decode).Ok? && e.size.Some?
      {
        var i :| 0 <= i < |selected| && selected[i] == e;
        ContentAgrees(e.path, e.size.value, e.url, fetch, decode);
      }
      forall i | 0 <= i < |second.value|
        ensures second.value[i] == GithubFile(first.value[i].path, first.value[i].url, Some(first.value[i].size),
                                              first.value[i].content.GetOr(""))
      {
        var e := selected[i];
        ContentAgrees(e.path, e.size.value, e.url, fetch, decode);
      }
    } else if second.Ok? {
      forall i | 0 <= i < |selected|
        ensures selected[i].size.Some? &&
                FetchGithubFile(selected[i].path, selected[i].size.value, selected[i].url, fetch, decode).Ok?
      {
        var e := selected[i];
        assert e in selected;
        ContentAgrees(e.path, e.size.value, e.url, fetch, decode);
      }
    }
  }
}
