// The names of the active, isolated (".lan") and backed-up (".bak") copies of a path
// (launcher-common/userData/userData.go).
module UserDataPath {
  import opened Wrappers

  datatype PathType = Active | Server | Backup

  // Either system: only on Windows is a backslash a separator too.
  const WINDOWS: bool

  predicate IsSeparator(c: char) {
    c == '/' || (WINDOWS && c == '\\')
  }

  /** filepath.Ext: from the last dot of the last path element, or nothing. */
  function Ext(path: string): (ext: string)
    ensures |ext| <= |path| && path[|path| - |ext|..] == ext
    ensures ext != "" ==> ext[0] == '.'
  {
    if path == "" then ""
    else
      var c := path[|path| - 1];
      var before := Ext(path[..|path| - 1]);
      if IsSeparator(c) then ""
      else if c == '.' then "."
      else if before == "" then "" else before + [c]
  }

  function TrimExt(path: string): string {
    path[..|path| - |Ext(path)|]
  }

  function TypeOf(path: string): PathType {
    if Ext(path) == ".bak" then Backup
    else if Ext(path) == ".lan" then Server
    else Active
  }

  function Suffix(t: PathType): string {
    match t
    case Active => ""
    case Server => ".lan"
    case Backup => ".bak"
  }

  /** None when the path is not of the source type. */
  function TransformPath(path: string, src: PathType, dst: PathType): Option<string> {
    if TypeOf(path) != src then None
    else if src == dst then Some(path)
    else Some(TrimExt(path) + Suffix(dst))
  }

  /** The extension begins at the last dot of the last path element, and is empty without one. */
  lemma {:induction false} ExtExactly(path: string)
    ensures var i := |path| - |Ext(path)|;
      && i >= 0 && Ext(path) == path[i..]
      && (Ext(path) != "" ==> path[i] == '.' && forall j :: i < j < |path| ==> path[j] != '.' && !IsSeparator(path[j]))
      && (Ext(path) == "" ==>
          forall k :: 0 <= k < |path| && path[k] == '.' ==> exists j :: k < j < |path| && IsSeparator(path[j]))
  {
    if path != "" {
      var n := |path| - 1;
      ExtExactly(path[..n]);
      if IsSeparator(path[n]) {
      } else if path[n] == '.' {
      } else if Ext(path[..n]) == "" {
        forall k | 0 <= k < |path| && path[k] == '.' ensures exists j :: k < j < |path| && IsSeparator(path[j]) {
          assert path[..n][k] == '.';
          var j :| k < j < n && IsSeparator(path[..n][j]);
          assert IsSeparator(path[j]);
        }
      }
    }
  }

  lemma {:induction false} ExtOfSuffix(stem: string, tail: string)
    requires forall i :: 0 <= i < |tail| ==> tail[i] != '.' && !IsSeparator(tail[i])
    ensures Ext(stem + "." + tail) == "." + tail
  {
    var path := stem + "." + tail;
    if tail == "" {
      assert path[|path| - 1] == '.';
      assert "." + "" == ".";
    } else {
      var n := |tail| - 1;
      ExtOfSuffix(stem, tail[..n]);
      assert path[..|path| - 1] == stem + "." + tail[..n];
      assert "." + tail[..n] + [tail[n]] == "." + tail;
    }
  }

  /** A suffixed name has that extension, and its stem is what was suffixed. */
  lemma SuffixedExt(stem: string, ext: string)
    requires ext != "" && ext[0] == '.'
    requires forall i :: 1 <= i < |ext| ==> ext[i] != '.' && !IsSeparator(ext[i])
    ensures Ext(stem + ext) == ext && TrimExt(stem + ext) == stem
  {
    ExtOfSuffix(stem, ext[1..]);
    assert "." + ext[1..] == ext;
    assert stem + "." + ext[1..] == stem + ext;
  }

  lemma SuffixedType(stem: string, t: PathType)
    requires t != Active
    ensures TypeOf(stem + Suffix(t)) == t && TrimExt(stem + Suffix(t)) == stem
  {
    SuffixedExt(stem, Suffix(t));
  }

  /** The isolated path of an active one leads back to it exactly when it had no extension. */
  lemma TransformBack(path: string, dst: PathType)
    requires TypeOf(path) == Active && dst != Active
    ensures var there := TransformPath(path, Active, dst);
      there.Some? && (TransformPath(there.value, dst, Active) == Some(path) <==> Ext(path) == "")
  {
    hide Ext;
    var stem := TrimExt(path);
    SuffixedType(stem, dst);
    var back := TransformPath(stem + Suffix(dst), dst, Active);
    assert back == Some(stem + "");
    assert stem + "" == stem;
    assert |stem| == |path| - |Ext(path)|;
    assert Ext(path) == "" ==> stem == path[..|path|] == path;
  }

  /**
   * Two active paths share an isolated or backup path exactly when they share their stem;
   * otherwise their six paths are all different.
   */
  lemma TransformCollides(p: string, q: string)
    requires TypeOf(p) == Active && TypeOf(q) == Active
    ensures TransformPath(p, Active, Server) == TransformPath(q, Active, Server) <==> TrimExt(p) == TrimExt(q)
    ensures TransformPath(p, Active, Backup) == TransformPath(q, Active, Backup) <==> TrimExt(p) == TrimExt(q)
    ensures TransformPath(p, Active, Server) != TransformPath(q, Active, Backup)
    ensures TransformPath(p, Active, Server) != Some(q) && TransformPath(p, Active, Backup) != Some(q)
  {
    SuffixedType(TrimExt(p), Server);
    SuffixedType(TrimExt(p), Backup);
    SuffixedType(TrimExt(q), Server);
    SuffixedType(TrimExt(q), Backup);
  }
}
