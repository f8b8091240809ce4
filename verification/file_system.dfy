/** The filesystem the registry reads and writes, as plain data.

    Discovery and lookup read a snapshot, `FileSystem`: each directory with its
    entries in `os.listdir` order, and each file with what `json.load` makes of it.
    Installation changes a `FileStore`: each directory tree by its path, which is
    removed and copied as a whole. */
module FileSystems {
  import opened Wrappers
  import opened Paths
  import opened JsonValues

  /** The contents of a file as `json.load` sees them. */
  datatype FileData = JsonText(value: Json) | Unparsable

  datatype FileSystem = FileSystem(dirs: map<Path, seq<string>>, files: map<Path, FileData>)

  /** `os.path.isdir(p)`. */
  predicate IsDir(fs: FileSystem, p: Path)
  {
    p in fs.dirs
  }

  /** `os.path.isfile(p)`. */
  predicate IsFile(fs: FileSystem, p: Path)
  {
    p in fs.files
  }

  /** `_is_kernel_dir(p)`: a directory holding a `kernel.json` file. */
  predicate IsKernelDir(fs: FileSystem, p: Path)
  {
    IsDir(fs, p) && IsFile(fs, Join(p, "kernel.json"))
  }

  /** A directory tree: files with their bytes and sub-directories. */
  datatype Entry = File(bytes: seq<bv8>) | Folder(children: map<string, Entry>)

  type Tree = map<string, Entry>

  /** Why `shutil.copytree` fails. */
  datatype CopyError = SourceNotFound(source: Path) | DestinationExists(destination: Path)

  /** The directories installation writes to, each one's contents by its path. */
  class FileStore {
    var trees: map<Path, Tree>

    constructor (initial: map<Path, Tree>)
      ensures trees == initial
    {
      trees := initial;
    }

    /** `os.path.isdir(p)`. */
    predicate HasDir(p: Path)
      reads this
    {
      p in trees
    }

    /** `shutil.rmtree(p)`: the directory and everything below it are gone. */
    method RemoveTree(p: Path)
      requires HasDir(p)
      modifies this
      ensures trees == old(trees) - {p}
      ensures !HasDir(p)
    {
      trees := trees - {p};
    }

    /** `shutil.copytree(source, destination)`: lists the source first, so a missing
        source fails before a present destination is noticed; then the destination
        is created holding a copy of the source. */
    method CopyTree(source: Path, destination: Path) returns (r: Result<(), CopyError>)
      modifies this
      ensures source !in old(trees) ==> r == Err(SourceNotFound(source)) && trees == old(trees)
      ensures source in old(trees) && destination in old(trees) ==>
                r == Err(DestinationExists(destination)) && trees == old(trees)
      ensures source in old(trees) && destination !in old(trees) ==>
                r == Ok(()) && trees == old(trees)[destination := old(trees)[source]]
    {
      if source !in trees {
        return Err(SourceNotFound(source));
      }
      if destination in trees {
        return Err(DestinationExists(destination));
      }
      trees := trees[destination := trees[source]];
      return Ok(());
    }
  }
}
