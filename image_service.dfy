/**
 * `ImageService` of image.py: the format and extension enumerations with their two
 * lookups, the first-dot rule that derives a target path, and `convert_image`, which
 * checks the source and the target before handing the work to the imaging library.
 */
module ImageService {
  import opened Wrappers
  import opened PyStr
  import opened Exceptions
  import opened Files
  import opened Os

  /** `ImageFormat`. */
  datatype ImageFormat = Unknown | Jpeg | Tiff | Bmp | Gif | Ico | Png
  {
    /** The member's value, which `convert_image` hands to the library's `save` as the format name. */
    function Value(): (r: string)
      ensures |r| >= 3
      ensures forall k :: 0 <= k < |r| ==> 'A' <= r[k] <= 'Z'
    {
      match this
      case Unknown => "UNKNOWN"
      case Jpeg => "JPEG"
      case Tiff => "TIFF"
      case Bmp => "BMP"
      case Gif => "GIF"
      case Ico => "ICO"
      case Png => "PNG"
    }
  }

  /**
   * `ImageFileExtension`. Python makes a member whose value repeats an earlier one an
   * alias of it: `JPG = "jpg"` is `JPEG`, so there is no separate constructor for it.
   */
  datatype ImageFileExtension = Unknown | Tiff | Jpeg | Png | Gif | Bmp | Tif | Webp | Svg
  {
    /** The member's value: the extension text without its leading '.'. */
    function Value(): (r: string)
      ensures r != [] && '.' !in r && '/' !in r
    {
      match this
      case Unknown => "UNKNOWN"
      case Tiff => "tiff"
      case Jpeg => "jpg"
      case Png => "png"
      case Gif => "gif"
      case Bmp => "bmp"
      case Tif => "tif"
      case Webp => "webp"
      case Svg => "svg"
    }
  }

  /** `ImageFileExtension.JPG`, the alias of `ImageFileExtension.JPEG`. */
  const Jpg: ImageFileExtension := ImageFileExtension.Jpeg

  /** DEFAULT_IMAGE_EXTENSION and DEFAULT_IMAGE_FORMAT. */
  const DefaultImageExtension: ImageFileExtension := ImageFileExtension.Jpeg
  const DefaultImageFormat: ImageFormat := ImageFormat.Jpeg

  /** The default `quality` of `convert_image`. */
  const DefaultQuality: int := 100

  /** Distinct extension members have distinct values, which is why JPG can only be an alias. */
  lemma ExtensionValuesDistinct(a: ImageFileExtension, b: ImageFileExtension)
    requires a.Value() == b.Value()
    ensures a == b
  {
  }

  /**
   * `get_extension_by_format`: only JPEG and TIFF are wired to an extension; every
   * other format, UNKNOWN included, gets the UNKNOWN extension.
   */
  function GetExtensionByFormat(format: ImageFormat): (ext: ImageFileExtension)
    ensures ext != ImageFileExtension.Unknown <==> format == ImageFormat.Jpeg || format == ImageFormat.Tiff
    ensures format == ImageFormat.Jpeg ==> ext.Value() == "jpg"
    ensures format == ImageFormat.Tiff ==> ext.Value() == "tiff"
  {
    match format
    case Jpeg => ImageFileExtension.Jpeg
    case Tiff => ImageFileExtension.Tiff
    case _ => ImageFileExtension.Unknown
  }

  /**
   * `get_format_by_extension`: "jpg" (JPEG and its alias JPG) gives JPEG and "tiff"
   * gives TIFF; every other extension, "tif" among them, gives UNKNOWN.
   */
  function GetFormatByExtension(ext: ImageFileExtension): (format: ImageFormat)
    ensures format != ImageFormat.Unknown <==> ext.Value() == "jpg" || ext.Value() == "tiff"
    ensures ext.Value() == "jpg" ==> format == ImageFormat.Jpeg
    ensures ext.Value() == "tiff" ==> format == ImageFormat.Tiff
  {
    match ext
    case Jpeg => ImageFormat.Jpeg
    case Tiff => ImageFormat.Tiff
    case _ => ImageFormat.Unknown
  }

  /** Format, to extension, back to format: JPEG and TIFF come back, every other format becomes UNKNOWN. */
  lemma FormatRoundTrip(format: ImageFormat)
    ensures GetFormatByExtension(GetExtensionByFormat(format))
         == if format == ImageFormat.Jpeg || format == ImageFormat.Tiff then format else ImageFormat.Unknown
  {
  }

  /** Extension, to format, back to extension: "jpg" and "tiff" come back, every other extension becomes UNKNOWN. */
  lemma ExtensionRoundTrip(ext: ImageFileExtension)
    ensures GetExtensionByFormat(GetFormatByExtension(ext))
         == if ext == Jpg || ext == ImageFileExtension.Tiff then ext else ImageFileExtension.Unknown
  {
  }

  /**
   * The defaults agree: the default format's extension is the default extension, and a
   * call of `set_extension_by_format` or `convert_image` without a format targets ".jpg"
   * and has the library save as "JPEG".
   */
  lemma DefaultsAgree(srcFile: string)
    ensures GetExtensionByFormat(DefaultImageFormat) == DefaultImageExtension
    ensures EndsWith(SetExtensionByFormat(srcFile, DefaultImageFormat), ".jpg")
    ensures DefaultImageFormat.Value() == "JPEG"
  {
    assert "." + DefaultImageExtension.Value() == ".jpg";
  }

  /**
   * `quality` never decides the outcome of `convert_image`: any value gives what the
   * default of 100 gives.
   */
  lemma ConvertImageQualityIgnored(
    files: set<string>, srcPath: string, targetFormat: ImageFormat, quality: int, overwrite: bool, codec: Codec)
    ensures ConvertImageOutcome(files, srcPath, targetFormat, quality, overwrite, codec)
         == ConvertImageOutcome(files, srcPath, targetFormat, DefaultQuality, overwrite, codec)
  {
  }

  /**
   * `set_extension_by_format`: everything before the first '.' of the whole path (the
   * whole path when it has none), then '.', then the value of the format's extension.
   */
  function SetExtensionByFormat(srcFile: string, format: ImageFormat): (r: string)
    ensures EndsWith(r, "." + GetExtensionByFormat(format).Value())
    ensures r[..|r| - |GetExtensionByFormat(format).Value()| - 1] == srcFile[..FirstIndex(srcFile, ExtensionPrefix)]
  {
    var targetExt := GetExtensionByFormat(format).Value();
    var srcFileName := Split(srcFile, ExtensionPrefix)[0];
    srcFileName + "." + targetExt
  }

  /**
   * The derived target is a stem, '.', and the format's extension value, where the stem
   * is the longest prefix of the source free of '.': all of the source when it has no
   * '.', and otherwise what precedes its first '.'.
   */
  lemma SetExtensionShape(srcFile: string, format: ImageFormat)
    ensures var target := SetExtensionByFormat(srcFile, format);
      var suffix := "." + GetExtensionByFormat(format).Value();
      EndsWith(target, suffix) &&
      var stem := target[..|target| - |suffix|];
      |stem| <= |srcFile| && stem == srcFile[..|stem|] && '.' !in stem
      && (|stem| < |srcFile| ==> srcFile[|stem|] == '.')
  {
    var targetExt := GetExtensionByFormat(format).Value();
    var srcFileName := Split(srcFile, ExtensionPrefix)[0];
    var target := srcFileName + "." + targetExt;
    assert target[..|target| - |"." + targetExt|] == srcFileName;
    assert target[|target| - |"." + targetExt|..] == "." + targetExt;
  }

  /** Deriving the target twice with the same format gives the same path as deriving it once. */
  lemma SetExtensionIdempotent(srcFile: string, format: ImageFormat)
    ensures SetExtensionByFormat(SetExtensionByFormat(srcFile, format), format) == SetExtensionByFormat(srcFile, format)
  {
    var stem := Split(srcFile, ExtensionPrefix)[0];
    var ext := GetExtensionByFormat(format).Value();
    assert SetExtensionByFormat(srcFile, format) == stem + ['.'] + ext;
    SplitHeadOfJoined(stem, '.', ext);
  }

  /** A path without any '.' is kept whole and the extension is appended to it. */
  lemma SetExtensionWithoutDot(srcFile: string, format: ImageFormat)
    requires '.' !in srcFile
    ensures SetExtensionByFormat(srcFile, format) == srcFile + "." + GetExtensionByFormat(format).Value()
  {
    assert srcFile[..|srcFile|] == srcFile;
  }

  /** A format with no extension wired to it yields a path ending in ".UNKNOWN". */
  lemma SetExtensionUnmapped(srcFile: string, format: ImageFormat)
    requires format != ImageFormat.Jpeg && format != ImageFormat.Tiff
    ensures EndsWith(SetExtensionByFormat(srcFile, format), ".UNKNOWN")
  {
  }

  /** Whatever follows the first '.' is dropped, the rest of the file name and any directories after it included. */
  lemma SetExtensionAfterFirstDot(stem: string, rest: string, format: ImageFormat)
    requires '.' !in stem
    ensures SetExtensionByFormat(stem + "." + rest, format) == stem + "." + GetExtensionByFormat(format).Value()
  {
    assert stem + "." + rest == stem + ['.'] + rest;
    SplitHeadOfJoined(stem, '.', rest);
  }

  /**
   * The first '.' of the whole path is used even when it lies in a directory name: the
   * target then lands beside that directory, named after its first part.
   */
  lemma SetExtensionDotInDirectory(dir: string, dirExt: string, rest: string, format: ImageFormat)
    requires '.' !in dir
    ensures SetExtensionByFormat(dir + "." + dirExt + "/" + rest, format)
         == dir + "." + GetExtensionByFormat(format).Value()
  {
    assert dir + "." + dirExt + "/" + rest == dir + "." + (dirExt + "/" + rest);
    SetExtensionAfterFirstDot(dir, dirExt + "/" + rest, format);
  }

  /** A relative path starting with "./" keeps nothing but the new extension. */
  lemma SetExtensionRelativePath(rest: string, format: ImageFormat)
    ensures SetExtensionByFormat("./" + rest, format) == "." + GetExtensionByFormat(format).Value()
  {
    var stem: string := [];
    assert "./" + rest == stem + "." + ("/" + rest);
    SetExtensionAfterFirstDot(stem, "/" + rest, format);
    assert stem + "." + GetExtensionByFormat(format).Value() == "." + GetExtensionByFormat(format).Value();
  }

  /**
   * What `convert_image` returns or raises. Constructing the source's `File` raises
   * IndexError on a path it cannot parse; then a missing source raises FileNotFoundError;
   * then an existing target without `overwrite` raises FileExistsException; then the
   * library runs. Whatever was raised comes out wrapped in ImageConversionException, and
   * the only value ever returned is true. `quality` is handed to the library unchecked.
   */
  function ConvertImageOutcome(
    files: set<string>, srcPath: string, targetFormat: ImageFormat, quality: int, overwrite: bool, codec: Codec)
    : (r: Result<bool, ImageConversionException>)
    ensures r.Ok? ==> r.value
    ensures r.Ok? <==>
      Parse(srcPath).Ok? && srcPath in files
      && (overwrite || SetExtensionByFormat(srcPath, targetFormat) !in files)
      && Converts(codec, files, srcPath, SetExtensionByFormat(srcPath, targetFormat), targetFormat.Value())
  {
    match NewFile(srcPath, files, None)
    case Err(e) => Err(ImageConversionException(e))
    case Ok(imageFile) =>
      if !imageFile.fileExists then Err(ImageConversionException(FileNotFound(srcPath)))
      else
        var targetPath := SetExtensionByFormat(srcPath, targetFormat);
        if targetPath in files && !overwrite then Err(ImageConversionException(FileExists(targetPath)))
        else if !Converts(codec, files, srcPath, targetPath, targetFormat.Value()) then Err(ImageConversionException(LibraryFailure))
        else Ok(true)
  }

  /** A source that is not an existing regular file fails with FileNotFoundError, whatever else holds. */
  lemma ConvertImageMissingSource(
    files: set<string>, srcPath: string, targetFormat: ImageFormat, quality: int, overwrite: bool, codec: Codec)
    requires Parse(srcPath).Ok? && srcPath !in files
    ensures ConvertImageOutcome(files, srcPath, targetFormat, quality, overwrite, codec)
         == Err(ImageConversionException(FileNotFound(srcPath)))
  {
  }

  /** An existing target without `overwrite` fails with FileExistsException before the library runs. */
  lemma ConvertImageTargetExists(
    files: set<string>, srcPath: string, targetFormat: ImageFormat, quality: int, codec: Codec)
    requires Parse(srcPath).Ok? && srcPath in files
    requires SetExtensionByFormat(srcPath, targetFormat) in files
    ensures ConvertImageOutcome(files, srcPath, targetFormat, quality, false, codec)
         == Err(ImageConversionException(FileExists(SetExtensionByFormat(srcPath, targetFormat))))
  {
  }

  /**
   * With `overwrite`, an existing target is no obstacle: a present, parsable source the
   * library can convert succeeds whether or not the target exists.
   */
  lemma ConvertImageOverwrite(
    files: set<string>, srcPath: string, targetFormat: ImageFormat, quality: int, codec: Codec)
    requires Parse(srcPath).Ok? && srcPath in files
    requires Converts(codec, files, srcPath, SetExtensionByFormat(srcPath, targetFormat), targetFormat.Value())
    ensures ConvertImageOutcome(files, srcPath, targetFormat, quality, true, codec) == Ok(true)
  {
  }

  /** A path without any '.' cannot be parsed, so it fails with IndexError before existence is probed. */
  lemma ConvertImageNeedsDot(
    files: set<string>, srcPath: string, targetFormat: ImageFormat, quality: int, overwrite: bool, codec: Codec)
    requires '.' !in srcPath
    ensures ConvertImageOutcome(files, srcPath, targetFormat, quality, overwrite, codec)
         == Err(ImageConversionException(IndexError))
  {
    assert '.' !in PosixPath.Basename(srcPath);
  }

  /**
   * Running the same conversion again without `overwrite` after it succeeded fails with
   * FileExistsException, since the first run left its target behind.
   */
  lemma ConvertImageTwice(
    files: set<string>, srcPath: string, targetFormat: ImageFormat, quality: int, codec: Codec)
    requires ConvertImageOutcome(files, srcPath, targetFormat, quality, false, codec).Ok?
    ensures var target := SetExtensionByFormat(srcPath, targetFormat);
      ConvertImageOutcome(files + {target}, srcPath, targetFormat, quality, false, codec)
      == Err(ImageConversionException(FileExists(target)))
  {
  }

  /**
   * `convert_image` over the file system: on success exactly the target path is created
   * or replaced; on every failure no path appears or disappears. The source is never removed.
   */
  method ConvertImage(
    fs: FileSystem, srcPath: string, targetFormat: ImageFormat, quality: int, overwrite: bool, codec: Codec)
    returns (r: Result<bool, ImageConversionException>)
    modifies fs
    ensures r == ConvertImageOutcome(old(fs.files), srcPath, targetFormat, quality, overwrite, codec)
    ensures r.Ok? ==> fs.files == old(fs.files) + {SetExtensionByFormat(srcPath, targetFormat)}
    ensures r.Err? ==> fs.files == old(fs.files)
  {
    var converted := false;
    var imageFile := NewFile(srcPath, fs.files, None);
    if imageFile.Err? {
      return Err(ImageConversionException(imageFile.error));
    }
    if !imageFile.value.fileExists {
      return Err(ImageConversionException(FileNotFound(srcPath)));
    }
    var targetPath := SetExtensionByFormat(srcPath, targetFormat);
    if fs.IsFile(targetPath) && !overwrite {
      return Err(ImageConversionException(FileExists(targetPath)));
    }
    if !Converts(codec, fs.files, srcPath, targetPath, targetFormat.Value()) {
      return Err(ImageConversionException(LibraryFailure));
    }
    fs.Write(targetPath);
    converted := true;
    r := Ok(converted);
  }
}
