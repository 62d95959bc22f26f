/**
 * `File` of file.py: a path split into directory, file name and extension, with a
 * snapshot of whether it is a regular file and, if it is, its stats.
 */
module Files {
  import opened Wrappers
  import opened PyStr
  import opened PosixPath
  import opened Exceptions

  /** DEFAULT_EXTENSION_PREFIX. */
  const ExtensionPrefix: char := '.'

  /** The stat record `os.stat` yields, reduced to the fields a caller might read. */
  datatype Stats = Stats(size: nat, modified: int)

  /** The three fields `__parse__` assigns. */
  datatype ParsedPath = ParsedPath(directory: string, fileName: string, ext: string)

  /** A constructed `File`; `stats` is `None` where the Python object has no `stats` attribute. */
  datatype File = File(
    fullPath: string,
    directory: string,
    fileName: string,
    ext: string,
    fileExists: bool,
    stats: Option<Stats>)

  /**
   * `__parse__`: `rsplit('/', 1)`, then `split('.', 1)` of the second part. Indexing
   * part [1] of a split that found no separator raises IndexError.
   */
  function Parse(fullPath: string): (r: Result<ParsedPath, Cause>)
    ensures r.Ok? <==> '/' in fullPath && ExtensionPrefix in Basename(fullPath)
    ensures r.Err? ==> r.error == IndexError
    ensures r.Ok? ==> r.value.directory + "/" + r.value.fileName + "." + r.value.ext == fullPath
    ensures r.Ok? ==> '/' !in r.value.fileName && '.' !in r.value.fileName && '/' !in r.value.ext
  {
    var dirParts := RSplitOnce(fullPath, '/');
    if |dirParts| < 2 then Err(IndexError)
    else
      var fileParts := SplitOnce(dirParts[1], ExtensionPrefix);
      if |fileParts| < 2 then Err(IndexError)
      else
        PartsReassemble(fullPath, dirParts[0], dirParts[1], fileParts[0], fileParts[1]);
        Ok(ParsedPath(dirParts[0], fileParts[0], fileParts[1]))
  }

  /** The pieces of the two splits put back together give the path, and neither name nor extension holds a '/'. */
  lemma PartsReassemble(fullPath: string, directory: string, last: string, fileName: string, ext: string)
    requires directory + ['/'] + last == fullPath && '/' !in last
    requires fileName + ['.'] + ext == last
    ensures directory + "/" + fileName + "." + ext == fullPath
    ensures '/' !in fileName && '/' !in ext
  {
    assert directory + "/" + fileName + "." + ext == directory + ['/'] + (fileName + ['.'] + ext);
    assert forall k :: 0 <= k < |fileName| ==> fileName[k] == last[k];
    assert forall k :: 0 <= k < |ext| ==> ext[k] == last[|fileName| + 1 + k];
  }

  /**
   * The parse is the only split of its kind: whenever `fullPath` is a directory, '/',
   * a name free of '/' and '.', '.', and an extension free of '/', parsing yields
   * exactly those three parts. So the directory is what precedes the last '/', the
   * extension may hold further dots, and dots in the directory play no part.
   */
  lemma ParseUnique(directory: string, fileName: string, ext: string)
    requires '/' !in fileName && '.' !in fileName && '/' !in ext
    ensures Parse(directory + "/" + fileName + "." + ext) == Ok(ParsedPath(directory, fileName, ext))
  {
    var last := fileName + ['.'] + ext;
    assert '/' !in last;
    assert directory + "/" + fileName + "." + ext == directory + ['/'] + last;
    RSplitOnceAt(directory, '/', last);
    SplitOnceAt(fileName, '.', ext);
  }

  /**
   * `File(full_path)`: parse (raising IndexError on failure), probe existence, and load
   * stats only for an existing file. `stat` is what `os.stat` yields, `None` for a
   * failure, which `__load__` prints instead of raising.
   */
  function NewFile(fullPath: string, files: set<string>, stat: Option<Stats>): (r: Result<File, Cause>)
    ensures r.Ok? <==> Parse(fullPath).Ok?
    ensures r.Err? ==> r.error == IndexError
    ensures r.Ok? ==> r.value.fullPath == fullPath
    ensures r.Ok? ==> r.value.directory + "/" + r.value.fileName + "." + r.value.ext == fullPath
    ensures r.Ok? ==> ParsedPath(r.value.directory, r.value.fileName, r.value.ext) == Parse(fullPath).value
    ensures r.Ok? ==> (r.value.fileExists <==> fullPath in files)
    ensures r.Ok? && r.value.stats.Some? ==> r.value.fileExists && r.value.stats == stat
    ensures r.Ok? && r.value.fileExists ==> r.value.stats == stat
  {
    match Parse(fullPath)
    case Err(e) => Err(e)
    case Ok(parsed) =>
      var fileExists := fullPath in files;
      var stats := if fileExists then Load(fullPath, files, stat) else None;
      Ok(File(fullPath, parsed.directory, parsed.fileName, parsed.ext, fileExists, stats))
  }

  /** `__load__`: re-checks the path, then takes what `os.stat` yields; a failure leaves no stats. */
  function Load(fullPath: string, files: set<string>, stat: Option<Stats>): (r: Option<Stats>)
    ensures r.Some? ==> fullPath in files && r == stat
    ensures fullPath in files ==> r == stat
  {
    if fullPath !in files then None else stat
  }

  /** Dots in the directory are not taken for the extension, and dots after the first stay in it. */
  lemma ParseKeepsLaterDots()
    ensures Parse("my.dir/a.b.tiff") == Ok(ParsedPath("my.dir", "a", "b.tiff"))
  {
    var directory, fileName, ext := "my.dir", "a", "b.tiff";
    assert '/' !in fileName && '.' !in fileName && '/' !in ext;
    assert directory + "/" + fileName + "." + ext == "my.dir/a.b.tiff";
    ParseUnique(directory, fileName, ext);
  }

  /** A path without '/' fails, and so does one whose final component has no '.'. */
  lemma ParseFailures()
    ensures Parse("a.tiff") == Err(IndexError)
    ensures Parse("dir.d/readme") == Err(IndexError)
  {
    assert '/' !in "a.tiff";
    var p := "dir.d/readme";
    assert Basename(p) == "readme" by {
      RfindBeforeFree("dir.d", '/', "readme");
      assert "dir.d" + ['/'] + "readme" == p;
    }
    assert '.' !in "readme";
  }
}
