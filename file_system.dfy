/**
 * The part of the file system a run touches: each file is the list of its
 * lines, as `Files.lines` reads them and `writeLine` writes them.
 */
module Files {
  type Path = string

  class FileSystem {
    var files: map<Path, seq<string>>

    constructor (initial: map<Path, seq<string>>)
      ensures files == initial
    {
      files := initial;
    }

    /** `Path.toFile().exists()`. */
    predicate Exists(p: Path)
      reads this
    {
      p in files
    }

    /** `Files.createTempFile`: a new, empty file at a path not in use. */
    method CreateTempFile(p: Path)
      requires p !in files
      modifies this
      ensures files == old(files)[p := []]
    {
      files := files[p := []];
    }

    /** `writer.write(line); writer.newLine()` on a file opened for appending. */
    method AppendLine(p: Path, line: string)
      requires p in files
      modifies this
      ensures files == old(files)[p := old(files)[p] + [line]]
    {
      files := files[p := files[p] + [line]];
    }

    /** `Files.copy` of src into a new or truncated dst. */
    method Copy(src: Path, dst: Path)
      requires src in files
      modifies this
      ensures files == old(files)[dst := old(files)[src]]
    {
      files := files[dst := files[src]];
    }

    /**
     * `Files.move` with `REPLACE_EXISTING`, atomic or not: afterwards src is
     * gone and dst holds what src held.
     */
    method Move(src: Path, dst: Path)
      requires src in files
      modifies this
      ensures files == (old(files) - {src})[dst := old(files)[src]]
    {
      files := (files - {src})[dst := files[src]];
    }
  }
}
