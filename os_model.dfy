/**
 * The outside world the converter acts on: a file system reduced to the set of paths
 * that are regular files (what `os.path.isfile` answers), and the imaging library
 * (PIL) reduced to which files it can decode and which format names it can encode.
 */
module Os {

  /** The file system, updated in place by conversions. */
  class FileSystem {
    /** The paths that are regular files. */
    var files: set<string>

    constructor (initial: set<string>)
      ensures files == initial
    {
      files := initial;
    }

    /** `os.path.isfile(path)`. */
    predicate IsFile(path: string)
      reads this
    {
      path in files
    }

    /** Creates `path`, or replaces it when it exists; no other path appears or disappears. */
    method Write(path: string)
      modifies this
      ensures files == old(files) + {path}
      ensures IsFile(path)
    {
      files := files + {path};
    }
  }

  /**
   * The imaging library as an opaque collaborator: `decodable` holds the paths whose
   * contents it can open and decode, `writable` the paths its `save` can write to (not,
   * say, an existing directory or a path in a missing one), and `encodable` the format
   * names its `save` accepts.
   */
  datatype Codec = Codec(decodable: set<string>, writable: set<string>, encodable: set<string>)

  /**
   * Whether opening `openedPath`, resizing it to its own size and saving it to
   * `targetPath` in the format named `formatName` all succeed. Opening a path that is
   * not an existing regular file always fails, as the library raises for a missing file.
   */
  predicate Converts(codec: Codec, files: set<string>, openedPath: string, targetPath: string, formatName: string)
    ensures Converts(codec, files, openedPath, targetPath, formatName) ==> openedPath in files
  {
    openedPath in files && openedPath in codec.decodable
    && targetPath in codec.writable && formatName in codec.encodable
  }
}
