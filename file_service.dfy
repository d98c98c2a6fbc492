/** The poster directory on disk: `FileServiceImpl.uploadFile` and
    `getResourceFile`, over a model of the java.nio file operations they use. */
module FileService {
  import opened Common

  type Path = string

  /** `File.separator` on the deployment platform. */
  const Separator: char := '/'

  /** An uploaded multipart file: the name the client gave it and its bytes. */
  datatype MultipartFile = MultipartFile(originalFilename: string, bytes: seq<bv8>) {
    /** `MultipartFile.isEmpty()`: no content. */
    predicate IsEmpty() {
      |bytes| == 0
    }
  }

  /** The disk: the directories that exist and the regular files with their content. */
  datatype FsState = FsState(dirs: set<Path>, files: map<Path, seq<bv8>>)

  /** `Files.exists` / `File.exists`: a directory or a regular file is there. */
  predicate PathExists(fs: FsState, p: Path) {
    p in fs.dirs || p in fs.files
  }

  /** The path `Paths.get(dir + File.separator + name)` and `new File(...)`
      denote. Both drop a trailing separator, so an empty name denotes the
      directory itself. */
  function FilePath(dir: Path, name: string): Path {
    if name == [] then dir else dir + [Separator] + name
  }

  /** Within one directory, distinct names give distinct paths. */
  lemma FilePathInjective(dir: Path, a: string, b: string)
    requires FilePath(dir, a) == FilePath(dir, b)
    ensures a == b
  {
    if a != [] && b != [] {
      assert a == FilePath(dir, a)[|dir| + 1..];
      assert b == FilePath(dir, b)[|dir| + 1..];
    }
  }

  /** `File.mkdirs()` on a path that does not exist yet. */
  function WithDirectory(fs: FsState, p: Path): FsState {
    fs.(dirs := fs.dirs + {p})
  }

  /** `Files.copy(in, dir/name)` without `REPLACE_EXISTING`: the directory must
      exist and nothing may be at the target yet. */
  function CopyInto(fs: FsState, bytes: seq<bv8>, dir: Path, name: string): (out: (Result<(), Error>, FsState))
    ensures out.0.Success? <==> dir in fs.dirs && !PathExists(fs, FilePath(dir, name))
    ensures out.0.Success? ==> out.1 == fs.(files := fs.files[FilePath(dir, name) := bytes])
    ensures out.0.Failure? ==> out.1 == fs
  {
    var target := FilePath(dir, name);
    if dir !in fs.dirs then (Failure(NoSuchFile(target)), fs)
    else if PathExists(fs, target) then (Failure(FileAlreadyExists(target)), fs)
    else (Success(()), fs.(files := fs.files[target := bytes]))
  }

  /** `Files.deleteIfExists` on a regular file: gone afterwards, and no error if it was absent. */
  function WithoutFile(fs: FsState, p: Path): (r: FsState)
    ensures p !in r.files && r.dirs == fs.dirs
    ensures forall q :: q != p ==> (q in r.files <==> q in fs.files)
    ensures forall q :: q in r.files ==> r.files[q] == fs.files[q]
  {
    fs.(files := fs.files - {p})
  }

  /** `uploadFile(path, file)`: create the directory when nothing is at `path`,
      then copy the content to `path/originalName` without overwriting, and
      return the original name. */
  function Upload(fs: FsState, path: Path, file: MultipartFile): (out: (Result<string, Error>, FsState))
    // the directory is created only when nothing was there, and exists afterwards
    // unless `path` is a regular file
    ensures out.1.dirs == if PathExists(fs, path) then fs.dirs else fs.dirs + {path}
    ensures path in out.1.dirs || path in fs.files
    // the upload fails exactly when there is no directory to copy into, the name is
    // taken, or the name is empty (the target is then the directory itself)
    ensures out.0.Success? <==>
              && file.originalFilename != []
              && (path in fs.dirs || path !in fs.files)
              && !PathExists(fs, FilePath(path, file.originalFilename))
    // on success exactly one entry `name -> content` is added and the original name is returned
    ensures out.0.Success? ==>
              out.0.value == file.originalFilename &&
              out.1.files == fs.files[FilePath(path, file.originalFilename) := file.bytes]
    // on failure no file is touched, in particular an existing one keeps its content
    ensures out.0.Failure? ==> out.1.files == fs.files
  {
    var fs1 := if PathExists(fs, path) then fs else WithDirectory(fs, path);
    var (copied, fs2) := CopyInto(fs1, file.bytes, path, file.originalFilename);
    match copied
    case Success(_) => (Success(file.originalFilename), fs2)
    case Failure(e) => (Failure(e), fs2)
  }

  /** The disk as the running program sees it. */
  class FileSystem {
    var dirs: set<Path>
    var files: map<Path, seq<bv8>>

    constructor (dirs: set<Path>, files: map<Path, seq<bv8>>)
      ensures State() == FsState(dirs, files)
    {
      this.dirs := dirs;
      this.files := files;
    }

    function State(): FsState
      reads this
    {
      FsState(dirs, files)
    }

    predicate Exists(p: Path)
      reads this
    {
      PathExists(State(), p)
    }

    method Mkdirs(p: Path)
      modifies this
      ensures State() == WithDirectory(old(State()), p)
    {
      dirs := dirs + {p};
    }

    method Copy(bytes: seq<bv8>, dir: Path, name: string) returns (r: Result<(), Error>)
      modifies this
      ensures (r, State()) == CopyInto(old(State()), bytes, dir, name)
    {
      var target := FilePath(dir, name);
      if dir !in dirs {
        return Failure(NoSuchFile(target));
      }
      if Exists(target) {
        return Failure(FileAlreadyExists(target));
      }
      files := files[target := bytes];
      r := Success(());
    }

    method DeleteIfExists(p: Path) returns (deleted: bool)
      modifies this
      ensures State() == WithoutFile(old(State()), p)
      ensures deleted == (p in old(files))
    {
      deleted := p in files;
      files := files - {p};
    }
  }

  /** `FileServiceImpl.uploadFile`. */
  method UploadFile(fs: FileSystem, path: Path, file: MultipartFile) returns (r: Result<string, Error>)
    modifies fs
    ensures (r, fs.State()) == Upload(old(fs.State()), path, file)
  {
    var fileName := file.originalFilename;
    if !fs.Exists(path) {
      fs.Mkdirs(path);
    }
    var copied := fs.Copy(file.bytes, path, fileName);
    if copied.Failure? {
      return Failure(copied.error);
    }
    r := Success(fileName);
  }

  /** `FileServiceImpl.getResourceFile`: the content of `path/fileName`, or
      `FileNotFoundException` when no regular file is there. Reads only. */
  method GetResourceFile(fs: FileSystem, path: Path, fileName: string) returns (r: Result<seq<bv8>, Error>)
    ensures r.Success? <==> FilePath(path, fileName) in fs.files
    ensures r.Success? ==> r.value == fs.files[FilePath(path, fileName)]
    ensures r.Failure? ==> r.error == FileNotFound(FilePath(path, fileName))
  {
    var filePath := FilePath(path, fileName);
    if filePath !in fs.files {
      return Failure(FileNotFound(filePath));
    }
    r := Success(fs.files[filePath]);
  }
}
