// The part of a file system the launcher changes: folders, moved as a whole, and the
// game's certificate files. Every operation may fail without a reason; each such
// failure is counted as a fault, so that properties can say "when nothing fails".
module FileSystem {
  type Path = string

  /** What a folder holds. */
  type Folder = map<string, string>

  /** A block of a PEM file: a certificate, or anything else. */
  datatype Block = Certificate(raw: string) | Other(text: string)

  type Pem = seq<Block>

  datatype Existence = Exists | Missing | Unknown

  /** The content at a path; a missing folder counts as an empty one. */
  function Look(folders: map<Path, Folder>, p: Path): Folder {
    if p in folders then folders[p] else map[]
  }

  /** The same content everywhere, up to empty folders. */
  ghost predicate SameContents(a: map<Path, Folder>, b: map<Path, Folder>) {
    forall p :: Look(a, p) == Look(b, p)
  }

  class FileSystem {
    var folders: map<Path, Folder>
    var files: map<Path, Pem>
    ghost var faults: nat

    method Fails() returns (fails: bool)
      modifies this`faults
      ensures faults == old(faults) + if fails then 1 else 0
    {
      fails := *;
      if fails {
        faults := faults + 1;
      }
    }

    method Stat(p: Path) returns (e: Existence)
      modifies this`faults
      ensures faults == old(faults) + if e.Unknown? then 1 else 0
      ensures e.Exists? ==> p in folders
      ensures e.Missing? ==> p !in folders
    {
      var fails := Fails();
      e := if fails then Unknown else if p in folders then Exists else Missing;
    }

    /** Creates an empty folder, with its parents. */
    method MkdirAll(p: Path) returns (ok: bool)
      requires p !in folders
      modifies this`folders, this`faults
      ensures faults == old(faults) + if ok then 0 else 1
      ensures folders == if ok then old(folders)[p := map[]] else old(folders)
    {
      var fails := Fails();
      ok := !fails;
      if ok {
        folders := folders[p := map[]];
      }
    }

    /** Moves a folder; only an empty folder may be in its way. */
    method Rename(from: Path, to: Path) returns (ok: bool)
      requires from != to
      modifies this`folders, this`faults
      ensures ok ==> from in old(folders) && Look(old(folders), to) == map[]
      ensures folders == if ok then (old(folders) - {from})[to := old(folders)[from]] else old(folders)
      ensures faults == old(faults) +
        if !ok && from in old(folders) && to !in old(folders) then 1 else 0
    {
      if from !in folders || Look(folders, to) != map[] {
        return false;
      }
      if to in folders {
        ok := *;
      } else {
        var fails := Fails();
        ok := !fails;
      }
      if ok {
        folders := (folders - {from})[to := folders[from]];
      }
    }

    method StatFile(p: Path) returns (e: Existence)
      modifies this`faults
      ensures faults == old(faults) + if e.Unknown? then 1 else 0
      ensures e.Exists? ==> p in files
      ensures e.Missing? ==> p !in files
    {
      var fails := Fails();
      e := if fails then Unknown else if p in files then Exists else Missing;
    }

    /** Moves a file over whatever is at the target. */
    method RenameFile(from: Path, to: Path) returns (ok: bool)
      requires from != to
      modifies this`files, this`faults
      ensures ok ==> from in old(files)
      ensures files == if ok then (old(files) - {from})[to := old(files)[from]] else old(files)
      ensures faults == old(faults) + if !ok && from in old(files) then 1 else 0
    {
      if from !in files {
        return false;
      }
      var fails := Fails();
      ok := !fails;
      if ok {
        files := (files - {from})[to := files[from]];
      }
    }

    /** Creates a file, or empties one. */
    method CreateFile(p: Path) returns (ok: bool)
      modifies this`files, this`faults
      ensures files == if ok then old(files)[p := []] else old(files)
      ensures faults == old(faults) + if ok then 0 else 1
    {
      var fails := Fails();
      ok := !fails;
      if ok {
        files := files[p := []];
      }
    }

    /** Appends to a file; a failure may leave part of the data written. */
    method WriteFile(p: Path, data: Pem) returns (ok: bool)
      requires p in files
      modifies this`files, this`faults
      ensures ok ==> files == old(files)[p := old(files)[p] + data]
      ensures exists n :: 0 <= n <= |data| && files == old(files)[p := old(files)[p] + data[..n]]
      ensures faults == old(faults) + if ok then 0 else 1
    {
      var fails := Fails();
      ok := !fails;
      var n := |data|;
      if fails {
        n :| 0 <= n <= |data|;
      }
      files := files[p := files[p] + data[..n]];
      assert ok ==> data[..n] == data;
    }

    method RemoveFile(p: Path) returns (ok: bool)
      requires p in files
      modifies this`files, this`faults
      ensures files == if ok then old(files) - {p} else old(files)
      ensures faults == old(faults) + if ok then 0 else 1
    {
      var fails := Fails();
      ok := !fails;
      if ok {
        files := files - {p};
      }
    }

    method ReadFile(p: Path) returns (ok: bool, data: Pem)
      requires p in files
      modifies this`faults
      ensures ok ==> data == files[p]
      ensures faults == old(faults) + if ok then 0 else 1
    {
      var fails := Fails();
      ok, data := !fails, if fails then [] else files[p];
    }
  }
}
