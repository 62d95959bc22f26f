# py_scripts image converter, modelled in Dafny

py_scripts is a small image-format converter written in Python on top of the PIL
imaging library. Its own logic is the following:

- **Format registry** (`image.py`). There are two enumerations, `ImageFormat` and `ImageFileExtension`. Two lookups connect them, and only JPEG and TIFF are wired.
- **Target path for `convert_image`** (`image.py`). The new path is whatever precedes the first `'.'` of the whole source path, then `'.'`, then the extension of the target format.
- **`File`** (`file.py`). It splits a path into a directory (before the last `'/'`), a file name and an extension (either side of the first `'.'` of the last component). It records whether the path is a regular file, and loads its stats only when it is.
- **`convert_image`** (`image.py`). It is a sequence of checks:
  1. the source must parse;
  2. the source must exist;
  3. the target must not exist unless `overwrite` is set.
  Then PIL opens, resizes and saves the image. Every failure is re-raised as `ImageConversionException`, and success returns `true`.
- **`convert_tiff_to_jpeg`** (`Image.py`). It accepts a path whose `os.path.splitext` extension lower-cases to `".tiff"`. The target is the `splitext` root plus `".jpg"`, which is the *last*-dot rule, unlike `image.py`. It skips when that file exists, and otherwise has PIL write it. Every failure is caught and reported as `false`.

The Dafny project has one module per concern:

| file | module | what it holds |
|---|---|---|
| `wrappers.dfy` | `Wrappers` | `Option` and `Result` |
| `exceptions.dfy` | `Exceptions` | the causes a conversion can fail with, and `ImageConversionException` |
| `pystr.dfy` | `PyStr` | the Python `str` operations used: `find`, `rfind`, `split`, `split(c, 1)`, `rsplit(c, 1)`, `join`, `lower` |
| `posixpath.dfy` | `PosixPath` | `os.path.basename` and `os.path.splitext` on POSIX |
| `os_model.dfy` | `Os` | see below |
| `file.dfy` | `Files` | `File.__parse__` and `File.__init__` / `__load__` |
| `image_service.dfy` | `ImageService` | `image.py`: the enumerations, the lookups, `set_extension_by_format` and `convert_image` |
| `tiff_to_jpeg.dfy` | `TiffToJpeg` | `Image.py`: `convert_tiff_to_jpeg`, and the repository's conversion test read as a call of it |

`Os` models the outside world in two parts:

- The file system is a class whose field is the set of paths that are regular files. A conversion adds a path to that set in place.
- PIL is an opaque `Codec`. It names the paths it can decode, the paths it can save to, and the format names it can encode.

Both conversions are methods over that file system. Each method is proved against a function or predicate that states its outcome (`ConvertImageOutcome`, `Completes`), and the lemmas are about those.

## Model

| member | source | states |
|---|---|---|
| PyStr.FirstIndex | src/py_scripts/image.py:80 | the index of the first occurrence of the character, or the length when there is none; no occurrence lies before it |
| PyStr.Rfind | src/py_scripts/file.py:22 | the index of the last occurrence of the character, or -1; no occurrence lies after it |
| PyStr.Split | src/py_scripts/image.py:80 | at least one part, no part holds the separator, the first part is what precedes the first separator |
| PyStr.JoinSplit | src/py_scripts/image.py:80 | joining the parts of `split` with the separator gives the string back |
| PyStr.SplitJoin | src/py_scripts/image.py:80 | `split` of a join of separator-free parts gives those parts back |
| PyStr.SplitHeadOfJoined | src/py_scripts/image.py:80 | the first part of `split` ignores everything after the first separator |
| PyStr.SplitOnce | src/py_scripts/file.py:25 | one part exactly when the separator is absent; otherwise two parts around the first separator, the first free of it |
| PyStr.SplitOnceAt | src/py_scripts/file.py:25 | `split(c, 1)` of a `c`-free prefix, `c` and a rest is exactly that prefix and rest |
| PyStr.RSplitOnce | src/py_scripts/file.py:22 | one part exactly when the separator is absent; otherwise two parts around the last separator, the second free of it and equal to what follows the last separator |
| PyStr.RSplitOnceAt | src/py_scripts/file.py:22 | `rsplit(c, 1)` of a prefix, `c` and a `c`-free rest is exactly that prefix and rest |
| PyStr.LowerChar | src/py_scripts/Image.py:21 | A-Z go to the matching a-z letter, every other character is unchanged |
| PyStr.Lower | src/py_scripts/Image.py:21 | same length, each character lower-cased on its own |
| PosixPath.Basename | src/py_scripts/Image.py:19 | the final component is a `'/'`-free suffix of the path, preceded by `'/'` when shorter than it |
| PosixPath.Splitext | src/py_scripts/Image.py:19-21 | root + extension is the path; the extension is empty or one `'.'` followed by text free of `'.'` and `'/'` |
| PosixPath.SplitextExtensionNeedsName | src/py_scripts/Image.py:19 | an extension is split off only when the root's final component is not all dots |
| PosixPath.SplitextOf | src/py_scripts/Image.py:19 | conversely, a root whose final component is not all dots, `'.'` and a `'.'`/`'/'`-free text split into exactly that root and extension |
| Os.FileSystem.IsFile | src/py_scripts/image.py:129 | whether the path is a regular file, read from the file set |
| Os.Converts | src/py_scripts/image.py:132-134 | whether the library opens the source, resizes it and saves it to the target in the format; it never succeeds on a source that is not an existing file |
| Os.FileSystem.Write | src/py_scripts/image.py:134 | the written path exists afterwards and no other path appears or disappears |
| Files.Parse | src/py_scripts/file.py:21-27 | succeeds iff the path has a `'/'` and its final component a `'.'`, else IndexError; directory + "/" + name + "." + ext is the path; the name holds no `'/'` or `'.'`, the extension no `'/'` |
| Files.PartsReassemble | src/py_scripts/file.py:22-27 | the two splits' pieces put back together give the path |
| Files.ParseUnique | src/py_scripts/file.py:21-27 | any directory, `'/'`- and `'.'`-free name, and `'/'`-free extension are recovered exactly by parsing their assembly |
| Files.ParseKeepsLaterDots | src/py_scripts/file.py:25-27 | "my.dir/a.b.tiff" gives directory "my.dir", name "a", extension "b.tiff" |
| Files.ParseFailures | src/py_scripts/file.py:22-27 | "a.tiff" (no `'/'`) and "dir.d/readme" (no `'.'` in the last component) raise IndexError |
| Files.NewFile | src/py_scripts/file.py:13-19 | constructing fails exactly when parsing does; directory, name and extension are the fields the parse gives; the `exists` flag is whether the path is a regular file; stats are present only for an existing file and are what the stat call gave |
| Files.Load | src/py_scripts/file.py:30-38 | stats are present only for an existing file, and then they are what the stat call gave |
| ImageService.ImageFormat.Value | src/py_scripts/image.py:12-19 | each format's value is an upper-case name of at least three letters, the name the library's `save` is given |
| ImageService.ImageFileExtension.Value | src/py_scripts/image.py:21-31 | each extension's value is non-empty and holds neither `'.'` nor `'/'`, so appending it after `'.'` yields one extension |
| ImageService.ExtensionValuesDistinct | src/py_scripts/image.py:21-31 | distinct extension members have distinct values, so `JPG` can only be an alias of `JPEG` |
| ImageService.GetExtensionByFormat | src/py_scripts/image.py:51-66 | not UNKNOWN exactly for JPEG and TIFF; JPEG gives "jpg", TIFF gives "tiff" |
| ImageService.GetFormatByExtension | src/py_scripts/image.py:86-101 | not UNKNOWN exactly for "jpg" (JPEG and its alias JPG) and "tiff"; those give JPEG and TIFF |
| ImageService.FormatRoundTrip | src/py_scripts/image.py:51-101 | format to extension to format returns JPEG and TIFF unchanged and UNKNOWN for every other format |
| ImageService.ExtensionRoundTrip | src/py_scripts/image.py:51-101 | extension to format to extension returns "jpg" and "tiff" unchanged and UNKNOWN for every other extension |
| ImageService.SetExtensionByFormat | src/py_scripts/image.py:69-83 | the target ends with "." + the format's extension, and what precedes that is the source up to its first `'.'` |
| ImageService.DefaultsAgree | src/py_scripts/image.py:34-35 | the default format's extension is the default extension; a call without a format targets ".jpg" and saves as "JPEG" |
| ImageService.ConvertImageQualityIgnored | src/py_scripts/image.py:104 | the outcome does not depend on `quality`: any value gives what the default 100 gives |
| ImageService.SetExtensionShape | src/py_scripts/image.py:79-83 | the target ends with "." + the format's extension, and before it is the longest `'.'`-free prefix of the source |
| ImageService.SetExtensionIdempotent | src/py_scripts/image.py:69-83 | deriving the target of a target with the same format changes nothing |
| ImageService.SetExtensionWithoutDot | src/py_scripts/image.py:80-81 | a source without `'.'` is kept whole and the extension appended |
| ImageService.SetExtensionUnmapped | src/py_scripts/image.py:79-81 | a format other than JPEG and TIFF yields a path ending in ".UNKNOWN" |
| ImageService.SetExtensionAfterFirstDot | src/py_scripts/image.py:80-81 | everything after the first `'.'`, later dots and directories included, is replaced by the extension |
| ImageService.SetExtensionDotInDirectory | src/py_scripts/image.py:80-81 | a `'.'` in a directory name cuts the path there |
| ImageService.SetExtensionRelativePath | src/py_scripts/image.py:80-81 | a path starting with "./" becomes just "." + the extension |
| ImageService.ConvertImageOutcome | src/py_scripts/image.py:120-140 | returns only `true`; succeeds iff the source parses, exists, the target is absent or `overwrite` is set, and the library converts the source into the target |
| ImageService.ConvertImageMissingSource | src/py_scripts/image.py:122-125 | a parsable source that is not a regular file fails with FileNotFoundError inside ImageConversionException |
| ImageService.ConvertImageTargetExists | src/py_scripts/image.py:127-130 | an existing target without `overwrite` fails with FileExistsException inside ImageConversionException |
| ImageService.ConvertImageOverwrite | src/py_scripts/image.py:129-136 | with `overwrite`, a present parsable source the library converts succeeds whether or not the target exists |
| ImageService.ConvertImageNeedsDot | src/py_scripts/image.py:122 | a source without any `'.'` fails with IndexError inside ImageConversionException |
| ImageService.ConvertImageTwice | src/py_scripts/image.py:127-136 | after a success, the same call without `overwrite` fails with FileExistsException for the target just written |
| ImageService.ConvertImage | src/py_scripts/image.py:104-140 | the outcome is `ConvertImageOutcome` of the old file set; success adds exactly the target; failure changes nothing; the source is never removed |
| TiffToJpeg.IsTiffPath | src/py_scripts/Image.py:19-26 | an accepted path has a `splitext` extension of exactly five characters |
| TiffToJpeg.JpegTargetPath | src/py_scripts/Image.py:28 | the target ends with ".jpg", and before it is the path without its `splitext` extension |
| TiffToJpeg.Completes | src/py_scripts/Image.py:23-42 | when the conversion completes, the ".jpg" it writes is never the source path itself |
| TiffToJpeg.TiffPathEnding | src/py_scripts/Image.py:19-26 | an accepted path ends in five characters lower-casing to ".tiff", after a final component that is not all dots |
| TiffToJpeg.EndingMakesTiffPath | src/py_scripts/Image.py:19-26 | conversely, such an ending after such a component is accepted |
| TiffToJpeg.IsTiffPathIff | src/py_scripts/Image.py:19-26 | both directions: accepted iff the path has that ending and the component before it is not all dots |
| TiffToJpeg.JpegTargetOfTiff | src/py_scripts/Image.py:19-28 | for an accepted path the target is the path with its last five characters replaced by ".jpg" |
| TiffToJpeg.UpperCaseTiffAccepted | src/py_scripts/Image.py:21-26 | ".TIFF" is accepted |
| TiffToJpeg.TifRefused | src/py_scripts/Image.py:21-26 | ".tif" is refused |
| TiffToJpeg.SplitextTiff | src/py_scripts/Image.py:19-21 | a root with a non-dot final component plus ".tiff" splits into that root and ".tiff" |
| TiffToJpeg.LastDotVersusFirstDot | src/py_scripts/Image.py:19-28 | for "name.middle.tiff" this script targets "name.middle.jpg" while `set_extension_by_format` gives "name.jpg" |
| TiffToJpeg.JpegTargetAtLastDot | src/py_scripts/Image.py:28 | a plain relative name + ".tiff" targets that name + ".jpg" |
| TiffToJpeg.JpegExtensionAtFirstDot | src/py_scripts/image.py:80-81 | the first-dot rule turns "name.middle.tiff" into "name.jpg" |
| TiffToJpeg.ConvertTiffToJpeg | src/py_scripts/Image.py:10-46 | returns true iff the path is accepted, its ".jpg" is absent and the library converts the TIFF file; only then exactly the ".jpg" is added, otherwise nothing changes |
| TiffToJpeg.ConvertTiffToJpegAsWritten | src/py_scripts/Image.py:10-46 | the same with the library asked to open the `splitext` root, as line 33 does |
| TiffToJpeg.TestFileSplit | src/py_scripts/tests/test_ImageService.py:8-9 | the fixture `<dir>/test_file.tiff` splits into `<dir>/test_file` and ".tiff" |
| TiffToJpeg.TestFileTarget | src/py_scripts/tests/test_ImageService.py:9-10 | the fixture is accepted and its target is `<dir>/test_file.jpg` |
| TiffToJpeg.TestConvertTiffToJpegSuccess | src/py_scripts/tests/test_ImageService.py:18-21 | with only the fixture present and a library that decodes it and can write its ".jpg", the conversion returns true and the ".jpg" exists |
| TiffToJpeg.TestConvertTiffToJpegAsWritten | src/py_scripts/tests/test_ImageService.py:18-21 | against the code as written the same test gets false and no ".jpg", whatever the library |

## Left out

- PIL's `Image.open`, `thumbnail` and `save` are modelled only as the opaque `Codec`. Resizing an image to its own size, image contents and what a save writes are not modelled. Whether a save can write its target (for instance, not over an existing directory) is the codec's `writable` set. It is not derived from a model of directories.
- Paths are compared as strings. `"d/a.jpg"` and `"./d/a.jpg"` are different files in the model, and symbolic links, `..` and repeated `'/'` are not resolved.
- Default arguments are not applied implicitly. `set_extension_by_format` and `convert_image` take every argument explicitly. ImageService.DefaultsAgree states what the defaults give.
- ImageService.ConvertImage: `quality` is passed through and never checked, as in the source, so it cannot influence the modelled outcome.
- ImageService.ConvertImage: a save that fails partway is treated as writing nothing.
- TiffToJpeg.ConvertTiffToJpeg: a save that fails partway is treated as writing nothing.
- Os.FileSystem.Write: replacing an existing file leaves the set of paths unchanged. File contents are not modelled.
- Check-then-act races between probing a path and writing it are not modelled. Each conversion runs atomically on the file set.
- `convert_images_in_directory` (image.py:143-174) and `convert_directory_tiff_to_jpeg` (Image.py:50-60) are not modelled. They are `os.walk` directory traversal and a thread pool, and both are broken as written:
  - a string is passed where an extension member is expected;
  - the result of a call is submitted to the pool;
  - nothing is converted when `from_format` is None;
  - `os.walk`'s triples are unpacked into two names.
- The repository's test imports `ImageService` from `py_scripts.image` (tests/test_ImageService.py:6). On a case-sensitive file system that is `image.py`, which has no `convert_tiff_to_jpeg` and already fails on import at image.py:34. The model reads the test's call as a call of `Image.py`'s `convert_tiff_to_jpeg`. It states what that method returns for the test's fixture, not whether the test file as written passes.
- `DEFAULT_DIR_PATH` and `DEFAULT_MAX_WORKERS` (image.py:33, 36) are not modelled. They are process state and thread-pool configuration.
- Files.NewFile: `os.stat` is not modelled. Its result is a parameter, and a failure is `None`. The message `__load__` prints is not modelled, nor are the messages `convert_tiff_to_jpeg` prints.
- The `ImageFile` constructor (image.py:39-45) calls `super.__init__`, which fails at run time. It is not modelled. Its only logic is `get_format_by_extension` of the parsed extension, which is modelled.
- Enumeration members referenced by name but never defined are modelled as the members they evidently mean:
  - `.jpeg`, `.tiff` and `.unknown` (image.py:34-35, 60-65, 95-100);
  - `UNNKNOWN` (image.py:13).

  As written, Python raises AttributeError at these references.
- `File.DEFAULT_EXTENSION_PREFIX` (file.py:25) is modelled as the module-level `DEFAULT_EXTENSION_PREFIX`, which is `'.'` (file.py:3). The class itself has no such attribute.
- PyStr.Lower: only A-Z are lower-cased. Python's Unicode case mapping of other letters is not modelled.
- `os.path.splitext` is modelled for POSIX only, with `'/'` as the sole separator.
- Failures of `convert_image` keep their cause (IndexError, FileNotFoundError, FileExistsException, library failure) inside `ImageConversionException`. The message text is not modelled.

## Findings

| source | as written | input that shows it | evidently intended | confidence | as-written member | corrected member |
|---|---|---|---|---|---|---|
| src/py_scripts/Image.py:33 | the library is asked to open `file_name`, the `splitext` root without the ".tiff" extension | `<dir>/test_file.tiff` as the only file: `<dir>/test_file` does not exist, so opening fails and the result is false with no ".jpg" written | open `file_path`, the TIFF file itself, so that the method returns true and writes the ".jpg" for that input, as the test at tests/test_ImageService.py:18-21 expects of it | high, not executed | TiffToJpeg.ConvertTiffToJpegAsWritten, TiffToJpeg.TestConvertTiffToJpegAsWritten | TiffToJpeg.ConvertTiffToJpeg, TiffToJpeg.TestConvertTiffToJpegSuccess |
