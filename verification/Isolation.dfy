// Isolating user data: the active folder is moved to its backup path and the isolated
// one takes its place, and back (launcher-config/internal/userData/backup.go,
// profileBackup.go).
module Isolation {
  import opened FileSystem
  import opened UserDataPath

  function IsolatedPath(path: Path): Path {
    var t := TransformPath(path, Active, Server);
    if t.Some? then t.value else ""
  }

  function OriginalPath(path: Path): Path {
    var t := TransformPath(path, Active, Backup);
    if t.Some? then t.value else ""
  }

  /** The three paths of a user-data folder. */
  function Places(path: Path): set<Path> {
    {path, IsolatedPath(path), OriginalPath(path)}
  }

  /** Outside these paths nothing differs, not even whether a folder exists. */
  ghost predicate OnlyAt(pre: map<Path, Folder>, post: map<Path, Folder>, at: set<Path>) {
    forall p :: p !in at ==> (p in pre <==> p in post) && Look(pre, p) == Look(post, p)
  }

  /** active has gone to backup, current is active, and nothing is left at current. */
  ghost predicate Switched(pre: map<Path, Folder>, post: map<Path, Folder>, active: Path, backup: Path, current: Path) {
    && Look(pre, backup) == map[]
    && active in post && Look(post, active) == Look(pre, current)
    && backup in post && Look(post, backup) == Look(pre, active)
    && current !in post
  }

  /** The first half of switchPaths: make the active folder if needed and move it to the backup path. */
  method MoveOut(fs: FileSystem, active: Path, backup: Path) returns (ok: bool, made: bool)
    requires active != backup
    modifies fs`folders, fs`faults
    ensures fs.faults >= old(fs.faults)
    ensures ok ==> Look(old(fs.folders), backup) == map[]
    ensures ok ==> fs.folders == MovedOut(old(fs.folders), active, backup)
    ensures !ok ==> (fs.folders == old(fs.folders)
                     || (active !in old(fs.folders) && fs.folders == old(fs.folders)[active := map[]]))
    ensures fs.faults == old(fs.faults) ==> (ok <==> backup !in old(fs.folders))
  {
    ok, made := false, false;
    var atBackup := fs.Stat(backup);
    if atBackup.Exists? {
      return;
    }
    var atActive := fs.Stat(active);
    if atActive.Missing? {
      made := fs.MkdirAll(active);
      if !made {
        return;
      }
    } else if atActive.Unknown? {
      return;
    }
    ok := fs.Rename(active, backup);
  }

  /** The second half: make current if needed, with the mode of the moved folder, and move it in. */
  method MoveIn(fs: FileSystem, active: Path, backup: Path, current: Path, modeKnown: bool) returns (ok: bool)
    requires active != current && active !in fs.folders && backup in fs.folders
    modifies fs`folders, fs`faults
    ensures fs.faults >= old(fs.faults)
    ensures !ok ==> fs.faults > old(fs.faults)
    ensures ok ==> fs.folders == (old(fs.folders) - {current})[active := Look(old(fs.folders), current)]
    ensures !ok ==> (fs.folders == old(fs.folders)
                     || (current !in old(fs.folders) && fs.folders == old(fs.folders)[current := map[]]))
  {
    ok := false;
    var atCurrent := fs.Stat(current);
    if atCurrent.Missing? {
      if !modeKnown {
        var info := fs.Stat(backup);
        if !info.Exists? {
          return;
        }
      }
      var made := fs.MkdirAll(current);
      if !made {
        return;
      }
    } else if atCurrent.Unknown? {
      return;
    }
    ok := fs.Rename(current, active);
  }

  function MovedOut(m: map<Path, Folder>, active: Path, backup: Path): map<Path, Folder> {
    (m - {active})[backup := Look(m, active)]
  }

  lemma BothMoves(m: map<Path, Folder>, active: Path, backup: Path, current: Path)
    requires active != backup && active != current && backup != current
    requires Look(m, backup) == map[]
    ensures var out := MovedOut(m, active, backup);
      var post := (out - {current})[active := Look(out, current)];
      Switched(m, post, active, backup, current) && OnlyAt(m, post, {active, backup, current})
  {
  }

  /** Wherever the second half stopped, moving the backup back restores the contents. */
  lemma MoveBack(m: map<Path, Folder>, stopped: map<Path, Folder>, active: Path, backup: Path, current: Path)
    requires active != backup && active != current && backup != current
    requires Look(m, backup) == map[]
    requires var out := MovedOut(m, active, backup);
      stopped == out || (current !in out && stopped == out[current := map[]])
    ensures backup in stopped && active !in stopped
    ensures OnlyAt(m, stopped, {active, backup, current})
    ensures var post := (stopped - {backup})[active := stopped[backup]];
      SameContents(m, post) && OnlyAt(m, post, {active, backup, current})
  {
  }

  /**
   * switchPaths. undoFaults counts the operations that failed while it was rolling back;
   * the deferred rollback has one step, taken when the second move does not happen.
   */
  method SwitchPaths(fs: FileSystem, active: Path, backup: Path, current: Path)
    returns (ok: bool, ghost undoFaults: nat)
    requires active != backup && active != current && backup != current
    modifies fs`folders, fs`faults
    ensures fs.faults >= old(fs.faults) + undoFaults
    ensures OnlyAt(old(fs.folders), fs.folders, {active, backup, current})
    ensures ok ==> Switched(old(fs.folders), fs.folders, active, backup, current)
    ensures !ok && undoFaults == 0 ==> SameContents(old(fs.folders), fs.folders)
    ensures fs.faults == old(fs.faults) ==> (ok <==> backup !in old(fs.folders))
  {
    undoFaults, ok := 0, false;
    var moved, made := MoveOut(fs, active, backup);
    if !moved {
      return;
    }
    ok := MoveIn(fs, active, backup, current, made);
    if ok {
      BothMoves(old(fs.folders), active, backup, current);
    } else {
      ghost var before, m := fs.faults, fs.folders;
      MoveBack(old(fs.folders), m, active, backup, current);
      var back := fs.Rename(backup, active);
      undoFaults := fs.faults - before;
    }
  }

  /** The paths of an active folder are three different ones. */
  lemma PlacesDiffer(path: Path)
    requires TypeOf(path) == Active
    ensures path != IsolatedPath(path) && path != OriginalPath(path) && IsolatedPath(path) != OriginalPath(path)
  {
    TransformCollides(path, path);
  }

  /** Backup moves the original aside and the isolated copy in; Restore does the reverse. */
  datatype Direction = ToServer | ToOriginal {
    function Reverse(): Direction {
      if ToServer? then ToOriginal else ToServer
    }

    function Aside(path: Path): Path {
      if ToServer? then OriginalPath(path) else IsolatedPath(path)
    }

    function Incoming(path: Path): Path {
      if ToServer? then IsolatedPath(path) else OriginalPath(path)
    }
  }

  ghost predicate SwitchedAt(pre: map<Path, Folder>, post: map<Path, Folder>, path: Path, d: Direction) {
    Switched(pre, post, path, d.Aside(path), d.Incoming(path))
  }

  /** Data.Backup and Data.Restore. */
  method SwitchData(fs: FileSystem, path: Path, d: Direction) returns (ok: bool, ghost undoFaults: nat)
    requires TypeOf(path) == Active
    modifies fs`folders, fs`faults
    ensures fs.faults >= old(fs.faults) + undoFaults
    ensures OnlyAt(old(fs.folders), fs.folders, Places(path))
    ensures ok ==> SwitchedAt(old(fs.folders), fs.folders, path, d)
    ensures !ok && undoFaults == 0 ==> SameContents(old(fs.folders), fs.folders)
    ensures fs.faults == old(fs.faults) ==> (ok <==> d.Aside(path) !in old(fs.folders))
  {
    PlacesDiffer(path);
    ok, undoFaults := SwitchPaths(fs, path, d.Aside(path), d.Incoming(path));
    assert {path, d.Aside(path), d.Incoming(path)} == Places(path);
  }

  /**
   * Backup, any change to the active folder, Restore: the original content is active
   * again, the changed content is isolated, and nothing is left at the backup path.
   */
  lemma BackupChangeRestore(m0: map<Path, Folder>, m1: map<Path, Folder>, m2: map<Path, Folder>, m3: map<Path, Folder>,
                            path: Path)
    requires TypeOf(path) == Active
    requires SwitchedAt(m0, m1, path, ToServer) && OnlyAt(m0, m1, Places(path))
    requires OnlyAt(m1, m2, {path})
    requires SwitchedAt(m2, m3, path, ToOriginal) && OnlyAt(m2, m3, Places(path))
    ensures Look(m3, path) == Look(m0, path)
    ensures Look(m3, IsolatedPath(path)) == Look(m2, path)
    ensures OriginalPath(path) !in m3
    ensures OnlyAt(m0, m3, Places(path))
  {
    PlacesDiffer(path);
    forall p | p !in Places(path) ensures (p in m0 <==> p in m3) && Look(m0, p) == Look(m3, p) {
      assert (p in m0 <==> p in m1) && Look(m0, p) == Look(m1, p);
      assert (p in m1 <==> p in m2) && Look(m1, p) == Look(m2, p);
    }
    assert Look(m1, OriginalPath(path)) == Look(m2, OriginalPath(path));
  }

  /** A switch frees the path the reverse switch needs free, and the two together change no content. */
  lemma SwitchUndone(m0: map<Path, Folder>, m1: map<Path, Folder>, m2: map<Path, Folder>, path: Path, d: Direction)
    requires TypeOf(path) == Active
    requires SwitchedAt(m0, m1, path, d)
    ensures d.Reverse().Aside(path) !in m1
    ensures SwitchedAt(m1, m2, path, d.Reverse()) ==> forall p :: p in Places(path) ==> Look(m0, p) == Look(m2, p)
  {
    PlacesDiffer(path);
  }
}
