/** The records the downloader builds from Google Classroom and Google Drive,
    and the part of the local file system it looks at. */
module Catalog {

  datatype Option<T> = None | Some(value: T)

  /** One Drive file attached to a course-work material. `size` is Drive's
      decimal string, absent for native Google documents; an absent MIME type
      is the empty string. `exportTypes` are the keys of `exportLinks`, in
      order. */
  datatype Material = Material(
    id: string,
    title: string,
    filename: string,
    size: Option<string>,
    creationTime: string,
    mimeType: string,
    exportTypes: seq<string>,
    downloaded: bool)

  /** A course or a course-work material: a titled, timestamped item that gets
      a directory of its own and holds `children`. */
  datatype Folder<C> = Folder(
    id: string,
    title: string,
    creationTime: string,
    dirname: string,
    children: seq<C>)

  type CourseWorkMaterial = Folder<Material>
  type Course = Folder<CourseWorkMaterial>

  /** The fields of a Drive `files.get` answer the downloader asks for. */
  datatype FileMetadata = FileMetadata(
    size: Option<string>,
    createdTime: string,
    mimeType: string,
    exportTypes: seq<string>)

  /** What the planner consults besides its input: `str.isprintable`, the
      lower-case form of each character, `mimetypes.guess_all_extensions`, and
      the Drive metadata of each file id. */
  datatype Environment = Environment(
    printable: char -> bool,
    lowerChar: char -> string,
    extensionsOf: string -> seq<string>,
    metadata: string -> FileMetadata)

  /** A path below the output directory, one component per level. */
  type Path = seq<string>

  /** The output directory as the planner sees it: how many entries each
      existing directory holds, and which regular files exist. */
  datatype FileSystem = FileSystem(dirs: map<Path, nat>, files: set<Path>)

  /** `os.path.isdir(dir) and len(os.listdir(dir)) >= expected`. */
  predicate LooksComplete(fs: FileSystem, dir: Path, expected: nat)
  {
    dir in fs.dirs && fs.dirs[dir] >= expected
  }

  /** `fs2` is `fs1` after more files were written: no file or directory
      disappeared and no directory lost entries. */
  predicate Grows(fs1: FileSystem, fs2: FileSystem)
  {
    && fs1.files <= fs2.files
    && (forall dir :: dir in fs1.dirs ==> dir in fs2.dirs && fs2.dirs[dir] >= fs1.dirs[dir])
  }

  function MaterialTime(m: Material): string { m.creationTime }

  function FolderTime<C>(f: Folder<C>): string { f.creationTime }

  /** `not material.size`: no size, or an empty one. */
  predicate NeedsExport(size: Option<string>)
  {
    size.None? || size.value == ""
  }
}
