/**
 * `ImageService.convert_tiff_to_jpeg` of Image.py: accept a path whose `splitext`
 * extension lower-cases to ".tiff", derive the sibling ".jpg" from the `splitext` root,
 * skip when that file exists, otherwise have the library write it. Every failure is
 * caught and reported as `false`; nothing is raised.
 */
module TiffToJpeg {
  import opened PyStr
  import opened PosixPath
  import opened Os
  import ImageService

  /** The format name handed to the library's `save`. */
  const JpegFormatName: string := "JPEG"

  /** The `splitext` extension of `filePath`, lower-cased, is ".tiff". */
  predicate IsTiffPath(filePath: string)
    ensures IsTiffPath(filePath) ==> |Splitext(filePath).1| == 5
  {
    Lower(Splitext(filePath).1) == ".tiff"
  }

  /** The `splitext` root of `filePath` followed by ".jpg". */
  function JpegTargetPath(filePath: string): (r: string)
    ensures EndsWith(r, ".jpg")
    ensures r[..|r| - 4] == filePath[..|filePath| - |Splitext(filePath).1|]
  {
    Splitext(filePath).0 + ".jpg"
  }

  /** Lower-casing yields '.' only from '.'. */
  lemma LowerCharDot(ch: char)
    requires LowerChar(ch) == '.'
    ensures ch == '.'
  {
  }

  /** Lower-casing yields a lower-case letter only from a letter, so never from '.' or '/'. */
  lemma LowerCharLetter(ch: char)
    requires 'a' <= LowerChar(ch) <= 'z'
    ensures ch != '.' && ch != '/'
  {
  }

  /** After its '.', ".tiff" is made of lower-case letters only. */
  lemma TiffLetters(j: int)
    requires 1 <= j < 5
    ensures 'a' <= ".tiff"[j] <= 'z'
  {
  }

  /** ".TIFF" lower-cases to ".tiff". */
  lemma LowerUpperTiff()
    ensures Lower(".TIFF") == ".tiff"
  {
    var u, l := ".TIFF", ".tiff";
    forall k | 0 <= k < 5 ensures Lower(u)[k] == l[k] {
      assert Lower(u)[k] == LowerChar(u[k]);
      if k == 0 { assert u[k] == '.'; }
      else if k == 1 { assert u[k] == 'T'; assert LowerChar('T') == 't'; }
      else if k == 2 { assert u[k] == 'I'; assert LowerChar('I') == 'i'; }
      else { assert u[k] == 'F'; assert LowerChar('F') == 'f'; }
    }
  }

  /** An accepted path ends in ".tiff" in some case, after a final component with a non-dot character. */
  lemma TiffPathEnding(filePath: string)
    requires IsTiffPath(filePath)
    ensures |filePath| >= 5 && Lower(filePath[|filePath| - 5..]) == ".tiff"
    ensures !AllDots(Basename(filePath[..|filePath| - 5]))
  {
    var n := |filePath|;
    var (root, ext) := Splitext(filePath);
    assert |ext| == 5;
    assert root == filePath[..n - 5] && ext == filePath[n - 5..] by {
      assert filePath == root + ext;
    }
    SplitextExtensionNeedsName(filePath);
  }

  /** Five characters that lower-case to ".tiff" are a '.' followed by four characters that are neither '.' nor '/'. */
  lemma TiffEndingChars(ext: string)
    requires Lower(ext) == ".tiff"
    ensures |ext| == 5 && ext[0] == '.'
    ensures '.' !in ext[1..] && '/' !in ext[1..]
  {
    assert LowerChar(ext[0]) == Lower(ext)[0];
    LowerCharDot(ext[0]);
    var e := ext[1..];
    forall k | 0 <= k < |e| ensures e[k] != '.' && e[k] != '/' {
      assert LowerChar(e[k]) == Lower(ext)[k + 1];
      TiffLetters(k + 1);
      LowerCharLetter(e[k]);
    }
  }

  /** `splitext` of a path with such an ending cuts off exactly its last five characters. */
  lemma SplitextAtTiffEnding(filePath: string)
    requires |filePath| >= 5 && Lower(filePath[|filePath| - 5..]) == ".tiff"
    requires !AllDots(Basename(filePath[..|filePath| - 5]))
    ensures Splitext(filePath).1 == filePath[|filePath| - 5..]
  {
    var n := |filePath|;
    var root, ext := filePath[..n - 5], filePath[n - 5..];
    TiffEndingChars(ext);
    var e := ext[1..];
    assert ext == ['.'] + e;
    assert filePath == root + ['.'] + e;
    SplitextOf(root, e);
  }

  /** A path ending in ".tiff" in some case, after a final component with a non-dot character, is accepted. */
  lemma EndingMakesTiffPath(filePath: string)
    requires |filePath| >= 5 && Lower(filePath[|filePath| - 5..]) == ".tiff"
    requires !AllDots(Basename(filePath[..|filePath| - 5]))
    ensures IsTiffPath(filePath)
  {
    SplitextAtTiffEnding(filePath);
  }

  /**
   * A path is accepted exactly when it ends in ".tiff" in any mix of case and the
   * final component has a character other than '.' before that ending (so "x/.tiff",
   * a hidden file, is refused).
   */
  lemma IsTiffPathIff(filePath: string)
    ensures IsTiffPath(filePath) <==>
      |filePath| >= 5 && Lower(filePath[|filePath| - 5..]) == ".tiff"
      && !AllDots(Basename(filePath[..|filePath| - 5]))
  {
    if IsTiffPath(filePath) {
      TiffPathEnding(filePath);
    }
    if |filePath| >= 5 && Lower(filePath[|filePath| - 5..]) == ".tiff"
       && !AllDots(Basename(filePath[..|filePath| - 5])) {
      EndingMakesTiffPath(filePath);
    }
  }

  /** For an accepted path the target is the path with its last five characters replaced by ".jpg". */
  lemma JpegTargetOfTiff(filePath: string)
    requires IsTiffPath(filePath)
    ensures JpegTargetPath(filePath) == filePath[..|filePath| - 5] + ".jpg"
  {
    var (root, ext) := Splitext(filePath);
    assert filePath == root + ext;
  }

  /** A slash-free name that does not start with '.' is its own final component and not all dots. */
  lemma PlainNameHasName(name: string)
    requires name != [] && name[0] != '.' && '/' !in name
    ensures !AllDots(Basename(name))
  {
    assert name[0..] == name;
  }

  /** An upper-case ".TIFF" is accepted. */
  lemma UpperCaseTiffAccepted(root: string)
    requires !AllDots(Basename(root))
    ensures IsTiffPath(root + ".TIFF")
  {
    var upper := "TIFF";
    assert '.' !in upper && '/' !in upper;
    assert root + ".TIFF" == root + ['.'] + upper;
    SplitextOf(root, upper);
    assert ['.'] + upper == ".TIFF";
    LowerUpperTiff();
  }

  /** The short spelling ".tif" is refused. */
  lemma TifRefused(root: string)
    requires !AllDots(Basename(root))
    ensures !IsTiffPath(root + ".tif")
  {
    var short := "tif";
    assert '.' !in short && '/' !in short;
    assert root + ".tif" == root + ['.'] + short;
    SplitextOf(root, short);
    assert |Lower(['.'] + short)| == 4;
  }

  /** A ".tiff" after a name with a non-dot character splits off at that last '.'. */
  lemma SplitextTiff(root: string)
    requires !AllDots(Basename(root))
    ensures Splitext(root + ".tiff") == (root, ".tiff")
  {
    var tiff := "tiff";
    assert '.' !in tiff && '/' !in tiff;
    assert root + ".tiff" == root + ['.'] + tiff;
    SplitextOf(root, tiff);
    assert ['.'] + tiff == ".tiff";
  }

  /**
   * The last '.' decides here, where image.py's rule takes the first: for
   * "a.b.tiff" this script targets "a.b.jpg" while `set_extension_by_format` gives "a.jpg".
   */
  lemma LastDotVersusFirstDot(name: string, middle: string)
    requires name != [] && '.' !in name && '/' !in name && '/' !in middle
    ensures JpegTargetPath(name + "." + middle + ".tiff") == name + "." + middle + ".jpg"
    ensures ImageService.SetExtensionByFormat(name + "." + middle + ".tiff", ImageService.ImageFormat.Jpeg)
         == name + ".jpg"
  {
    JpegTargetAtLastDot(name + "." + middle);
    JpegExtensionAtFirstDot(name, middle);
  }

  /** The script replaces only the last suffix of a plain relative name. */
  lemma JpegTargetAtLastDot(root: string)
    requires root != [] && root[0] != '.' && '/' !in root
    ensures JpegTargetPath(root + ".tiff") == root + ".jpg"
  {
    PlainNameHasName(root);
    SplitextTiff(root);
  }

  /** The service keeps only what precedes the first '.'. */
  lemma JpegExtensionAtFirstDot(name: string, middle: string)
    requires '.' !in name
    ensures ImageService.SetExtensionByFormat(name + "." + middle + ".tiff", ImageService.ImageFormat.Jpeg)
         == name + ".jpg"
  {
    assert name + "." + middle + ".tiff" == name + "." + (middle + ".tiff");
    ImageService.SetExtensionAfterFirstDot(name, middle + ".tiff", ImageService.ImageFormat.Jpeg);
    assert "." + "jpg" == ".jpg";
  }

  /**
   * Whether `convert_tiff_to_jpeg` reaches `completed = True` when it hands the library
   * `openedPath` to open: the path is accepted, its ".jpg" does not exist yet, and
   * opening, resizing and saving as JPEG succeed.
   */
  predicate Completes(files: set<string>, filePath: string, codec: Codec, openedPath: string)
    ensures Completes(files, filePath, codec, openedPath) ==> JpegTargetPath(filePath) != filePath
  {
    IsTiffPath(filePath) && JpegTargetPath(filePath) !in files
    && Converts(codec, files, openedPath, JpegTargetPath(filePath), JpegFormatName)
  }

  /**
   * `convert_tiff_to_jpeg` with the library handed `file_path` itself. It returns true
   * exactly when the conversion completes, and then exactly the ".jpg" target has been
   * added; on every other outcome nothing changes.
   */
  method ConvertTiffToJpeg(fs: FileSystem, filePath: string, codec: Codec) returns (completed: bool)
    modifies fs
    ensures completed == Completes(old(fs.files), filePath, codec, filePath)
    ensures fs.files == if completed then old(fs.files) + {JpegTargetPath(filePath)} else old(fs.files)
  {
    var fileParts := Splitext(filePath);
    var fileName := fileParts.0;
    var fileExt := Lower(fileParts.1);
    completed := false;
    if fileExt != ".tiff" {
      return;
    }
    var jpegFilePath := fileName + ".jpg";
    if fs.IsFile(jpegFilePath) {
      return;
    }
    if !Converts(codec, fs.files, filePath, jpegFilePath, JpegFormatName) {
      return;
    }
    fs.Write(jpegFilePath);
    completed := true;
  }

  /**
   * `convert_tiff_to_jpeg` as written: the library is asked to open the `splitext`
   * root, the path without its extension, instead of the TIFF file.
   */
  method ConvertTiffToJpegAsWritten(fs: FileSystem, filePath: string, codec: Codec) returns (completed: bool)
    modifies fs
    ensures completed == Completes(old(fs.files), filePath, codec, Splitext(filePath).0)
    ensures fs.files == if completed then old(fs.files) + {JpegTargetPath(filePath)} else old(fs.files)
  {
    var fileParts := Splitext(filePath);
    var fileName := fileParts.0;
    var fileExt := Lower(fileParts.1);
    completed := false;
    if fileExt != ".tiff" {
      return;
    }
    var jpegFilePath := fileName + ".jpg";
    if fs.IsFile(jpegFilePath) {
      return;
    }
    if !Converts(codec, fs.files, fileName, jpegFilePath, JpegFormatName) {
      return;
    }
    fs.Write(jpegFilePath);
    completed := true;
  }

  /** The test fixture `<dir>/test_file.tiff` splits into `<dir>/test_file` and ".tiff". */
  lemma TestFileSplit(testDir: string)
    ensures Splitext(testDir + "/test_file.tiff") == (testDir + "/test_file", ".tiff")
  {
    var root := testDir + "/test_file";
    TestFileNamed(testDir);
    assert testDir + "/test_file.tiff" == root + ".tiff";
    SplitextTiff(root);
  }

  /** The fixture's base name "test_file" is not made of dots only. */
  lemma TestFileNamed(testDir: string)
    ensures !AllDots(Basename(testDir + "/test_file"))
  {
    var root := testDir + "/test_file";
    assert root == testDir + ['/'] + "test_file";
    RfindBeforeFree(testDir, '/', "test_file");
    assert Basename(root)[0] == 't';
  }

  /** The fixture is accepted and its target is `<dir>/test_file.jpg`. */
  lemma TestFileTarget(testDir: string)
    ensures IsTiffPath(testDir + "/test_file.tiff")
    ensures JpegTargetPath(testDir + "/test_file.tiff") == testDir + "/test_file.jpg"
  {
    TestFileSplit(testDir);
    assert Lower(".tiff") == ".tiff";
    assert testDir + "/test_file" + ".jpg" == testDir + "/test_file.jpg";
  }

  /**
   * The conversion test: with only `<dir>/test_file.tiff` present and a library that
   * can decode it, the conversion reports success and `<dir>/test_file.jpg` exists.
   */
  method TestConvertTiffToJpegSuccess(testDir: string, codec: Codec) returns (wasConverted: bool, jpegExists: bool)
    requires testDir + "/test_file.tiff" in codec.decodable && JpegFormatName in codec.encodable
    requires testDir + "/test_file.jpg" in codec.writable
    ensures wasConverted && jpegExists
  {
    var tiffPath := testDir + "/test_file.tiff";
    var jpegPath := testDir + "/test_file.jpg";
    TestFileSplit(testDir);
    TestFileTarget(testDir);
    assert tiffPath != jpegPath by { assert tiffPath[|tiffPath| - 1] != jpegPath[|jpegPath| - 1]; }
    var fs := new FileSystem({tiffPath});
    wasConverted := ConvertTiffToJpeg(fs, tiffPath, codec);
    jpegExists := fs.IsFile(jpegPath);
  }

  /**
   * The same test against the code as written: the library is asked to open
   * `<dir>/test_file`, which does not exist, so the conversion fails whatever the library.
   */
  method TestConvertTiffToJpegAsWritten(testDir: string, codec: Codec) returns (wasConverted: bool, jpegExists: bool)
    ensures !wasConverted && !jpegExists
  {
    var tiffPath := testDir + "/test_file.tiff";
    var jpegPath := testDir + "/test_file.jpg";
    TestFileSplit(testDir);
    TestFileTarget(testDir);
    assert tiffPath != jpegPath by { assert tiffPath[|tiffPath| - 1] != jpegPath[|jpegPath| - 1]; }
    assert tiffPath != testDir + "/test_file" by { assert |tiffPath| != |testDir + "/test_file"|; }
    var fs := new FileSystem({tiffPath});
    wasConverted := ConvertTiffToJpegAsWritten(fs, tiffPath, codec);
    jpegExists := fs.IsFile(jpegPath);
  }
}
