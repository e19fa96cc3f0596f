// Resolving a Windows path under Wine by its longest resolvable prefix
// (config-helper/winepath_windows.go). The Wine call is an oracle.
module WinePath {
  import opened Wrappers
  import opened Text

  type Oracle = string -> Option<string>

  datatype Failure = EmptyPath | BadText | Unresolvable | InvalidComponent | ReducedToEmpty

  datatype Conversion = Converted(path: string) | Failed(failure: Failure)

  predicate IsSeparator(c: char) {
    c == '\\' || c == '/'
  }

  predicate IsInvalid(c: char) {
    c == '*' || c == '?' || c == '<' || c == '>' || c == '|' || c == '"'
  }

  predicate ValidComponent(s: string) {
    forall i :: 0 <= i < |s| ==> !IsInvalid(s[i])
  }

  predicate SeparatorFree(s: string) {
    forall i :: 0 <= i < |s| ==> !IsSeparator(s[i])
  }

  /** The position of the last separator, or -1. */
  function LastSeparator(s: string): (i: int)
    ensures -1 <= i < |s|
    ensures i >= 0 ==> IsSeparator(s[i])
    ensures forall j :: i < j < |s| ==> !IsSeparator(s[j])
  {
    if s == "" then -1
    else if IsSeparator(s[|s| - 1]) then |s| - 1
    else
      var r := LastSeparator(s[..|s| - 1]);
      assert forall j :: r < j < |s| - 1 ==> s[j] == s[..|s| - 1][j];
      r
  }

  /** strings.TrimRight of separators. */
  function TrimSeparators(s: string): (t: string)
    ensures t <= s
    ensures t != "" ==> !IsSeparator(t[|t| - 1])
    ensures forall i :: |t| <= i < |s| ==> IsSeparator(s[i])
  {
    if s == "" || !IsSeparator(s[|s| - 1]) then s else TrimSeparators(s[..|s| - 1])
  }

  function TrimLeftSpace(s: string): string {
    if s == "" || !IsSpace(s[0]) then s else TrimLeftSpace(s[1..])
  }

  function TrimRightSpace(s: string): string {
    if s == "" || !IsSpace(s[|s| - 1]) then s else TrimRightSpace(s[..|s| - 1])
  }

  predicate HasNul(s: string) {
    exists i :: 0 <= i < |s| && s[i] as int == 0
  }

  /** A text without the white space around it. */
  lemma TrimmedSpace(s: string)
    ensures var t := TrimRightSpace(TrimLeftSpace(s));
      && (exists i, j :: 0 <= i <= j <= |s| && t == s[i..j] && SpaceOnly(s[..i]) && SpaceOnly(s[j..]))
      && (t != "" ==> !IsSpace(t[0]) && !IsSpace(t[|t| - 1]))
  {
    var left := TrimLeftSpace(s);
    TrimmedLeft(s);
    TrimmedRight(left);
    var i := |s| - |left|;
    var j := i + |TrimRightSpace(left)|;
    assert left == s[i..];
    assert s[i..j] == TrimRightSpace(left) && s[j..] == left[|TrimRightSpace(left)|..];
  }

  predicate SpaceOnly(s: string) {
    forall i :: 0 <= i < |s| ==> IsSpace(s[i])
  }

  lemma {:induction false} TrimmedLeft(s: string)
    ensures var t := TrimLeftSpace(s);
      |t| <= |s| && t == s[|s| - |t|..] && SpaceOnly(s[..|s| - |t|]) && (t != "" ==> !IsSpace(t[0]))
  {
    if s != "" && IsSpace(s[0]) {
      TrimmedLeft(s[1..]);
    }
  }

  lemma {:induction false} TrimmedRight(s: string)
    ensures var t := TrimRightSpace(s);
      t <= s && SpaceOnly(s[|t|..]) && (t != "" ==> !IsSpace(t[|t| - 1]) && t[0] == s[0])
  {
    if s != "" && IsSpace(s[|s| - 1]) {
      TrimmedRight(s[..|s| - 1]);
    }
  }

  /** The characters that separate components, and those that no component may hold. */
  lemma ValidComponents(s: string)
    ensures SeparatorFree(s) <==> '\\' !in s && '/' !in s
    ensures ValidComponent(s) <==> '*' !in s && '?' !in s && '<' !in s && '>' !in s && '|' !in s && '"' !in s
  {
  }

  /** What the loop returns from a path still to resolve and the components cut so far. */
  function Convert(wine: Oracle, ntpath: string, tail: seq<string>): Conversion
    decreases |ntpath|
  {
    if HasNul(ntpath) then Failed(BadText)
    else if wine(ntpath).Some? then
      Converted(if tail == [] then wine(ntpath).value else wine(ntpath).value + "/" + Join(tail, "/"))
    else
      var lastSlash := LastSeparator(ntpath);
      if lastSlash == -1 then Failed(Unresolvable)
      else
        var partCut := ntpath[lastSlash + 1..];
        var shorter := TrimSeparators(ntpath[..lastSlash]);
        if !ValidComponent(partCut) then Failed(InvalidComponent)
        else if shorter == "" then Failed(ReducedToEmpty)
        else Convert(wine, shorter, [partCut] + tail)
  }

  /** WindowsToUnixPath; the loop ends because the path gets shorter. */
  method WindowsToUnixPath(wine: Oracle, path: string) returns (r: Conversion)
    ensures var nt := TrimRightSpace(TrimLeftSpace(path));
      r == if nt == "" then Failed(EmptyPath) else Convert(wine, nt, [])
  {
    var ntpath := TrimRightSpace(TrimLeftSpace(path));
    ghost var start := ntpath;
    if ntpath == "" {
      return Failed(EmptyPath);
    }
    var tail: seq<string> := [];
    while true
      invariant Convert(wine, start, []) == Convert(wine, ntpath, tail)
      decreases |ntpath|
    {
      if HasNul(ntpath) {
        return Failed(BadText);
      }
      var unixName := wine(ntpath);
      if unixName.Some? {
        if |tail| > 0 {
          return Converted(unixName.value + "/" + Join(tail, "/"));
        }
        return Converted(unixName.value);
      }
      var lastSlash := LastSeparator(ntpath);
      if lastSlash == -1 {
        return Failed(Unresolvable);
      }
      var partCut := ntpath[lastSlash + 1..];
      if !ValidComponent(partCut) {
        return Failed(InvalidComponent);
      }
      tail := [partCut] + tail;
      ntpath := TrimSeparators(ntpath[..lastSlash]);
      if ntpath == "" {
        return Failed(ReducedToEmpty);
      }
    }
  }

  /** path is prefix, then for each part a run of separators and that part, in order. */
  ghost predicate CutAs(path: string, prefix: string, parts: seq<string>)
    decreases |parts|
  {
    if parts == [] then path == prefix
    else
      var last := parts[|parts| - 1];
      && SeparatorFree(last) && |last| < |path|
      && path[|path| - |last|..] == last && IsSeparator(path[|path| - |last| - 1])
      && CutAs(TrimSeparators(path[..|path| - |last| - 1]), prefix, parts[..|parts| - 1])
  }

  /** No longer prefix, cut at any separator, was resolvable. */
  ghost predicate NoLongerResolves(wine: Oracle, path: string, prefix: string) {
    && (path != prefix ==> wine(path).None?)
    && forall i :: 0 <= i < |path| && IsSeparator(path[i]) && |TrimSeparators(path[..i])| > |prefix| ==>
         wine(TrimSeparators(path[..i])).None?
  }

  /** How a conversion is put together. */
  ghost predicate BuiltFrom(wine: Oracle, path: string, prefix: string, parts: seq<string>, tail: seq<string>, r: string) {
    && CutAs(path, prefix, parts)
    && wine(prefix).Some?
    && r == (if parts + tail == [] then wine(prefix).value else wine(prefix).value + "/" + Join(parts + tail, "/"))
    && (forall i :: 0 <= i < |parts| ==> ValidComponent(parts[i]))
    && NoLongerResolves(wine, path, prefix)
  }

  lemma {:induction false} CutIsShorter(path: string, prefix: string, parts: seq<string>)
    requires CutAs(path, prefix, parts)
    ensures |prefix| <= |path| && (parts != [] ==> |prefix| < |path|)
    decreases |parts|
  {
    if parts != [] {
      var last := parts[|parts| - 1];
      CutIsShorter(TrimSeparators(path[..|path| - |last| - 1]), prefix, parts[..|parts| - 1]);
    }
  }

  lemma {:induction false} TrimOfCut(s: string, i: nat)
    requires i <= |s| && |TrimSeparators(s)| <= i
    ensures TrimSeparators(s[..i]) == TrimSeparators(s)
  {
    if i < |s| {
      assert IsSeparator(s[|s| - 1]);
      assert s[..|s| - 1][..i] == s[..i];
      TrimOfCut(s[..|s| - 1], i);
    } else {
      assert s[..i] == s;
    }
  }

  /** A cut inside the trimmed path is a cut of it; a cut in the run of separators behind gives the trimmed path itself. */
  lemma CutsOfTrimmed(path: string, lastSlash: nat, i: nat)
    requires i <= lastSlash < |path| && lastSlash == LastSeparator(path)
    ensures var shorter := TrimSeparators(path[..lastSlash]);
      if i < |shorter| then shorter[..i] == path[..i] && shorter[i] == path[i]
      else TrimSeparators(path[..i]) == shorter
  {
    var upTo := path[..lastSlash];
    if i >= |TrimSeparators(upTo)| {
      assert upTo[..i] == path[..i];
      TrimOfCut(upTo, i);
    }
  }

  lemma LongerFails(wine: Oracle, path: string, prefix: string)
    requires LastSeparator(path) >= 0 && wine(path).None?
    requires var shorter := TrimSeparators(path[..LastSeparator(path)]); NoLongerResolves(wine, shorter, prefix)
    ensures NoLongerResolves(wine, path, prefix)
  {
    var lastSlash := LastSeparator(path);
    var shorter := TrimSeparators(path[..lastSlash]);
    forall i | 0 <= i < |path| && IsSeparator(path[i]) && |TrimSeparators(path[..i])| > |prefix|
      ensures wine(TrimSeparators(path[..i])).None?
    {
      CutsOfTrimmed(path, lastSlash, i);
    }
  }

  /** One more component, cut off behind those built from the shorter path. */
  lemma BuiltStep(wine: Oracle, path: string, shorter: string, part: string, prefix: string, parts: seq<string>,
                  tail: seq<string>, r: string)
    requires BuiltFrom(wine, shorter, prefix, parts, [part] + tail, r)
    requires CutAs(path, prefix, parts + [part]) && NoLongerResolves(wine, path, prefix) && ValidComponent(part)
    ensures BuiltFrom(wine, path, prefix, parts + [part], tail, r)
  {
    hide NoLongerResolves, CutAs, ValidComponent, Join;
    assert parts + [part] + tail == parts + ([part] + tail);
  }

  lemma BuiltParts(wine: Oracle, path: string, prefix: string, parts: seq<string>, tail: seq<string>, r: string)
    requires BuiltFrom(wine, path, prefix, parts, tail, r)
    ensures CutAs(path, prefix, parts) && NoLongerResolves(wine, path, prefix)
  {
  }

  lemma CutStep(path: string, prefix: string, parts: seq<string>)
    requires LastSeparator(path) >= 0
    requires CutAs(TrimSeparators(path[..LastSeparator(path)]), prefix, parts)
    ensures CutAs(path, prefix, parts + [path[LastSeparator(path) + 1..]])
  {
    var lastSlash := LastSeparator(path);
    var part := path[lastSlash + 1..];
    var all := parts + [part];
    assert all[..|all| - 1] == parts;
    assert path[..|path| - |part| - 1] == path[..lastSlash];
  }

  lemma BuiltOneMore(wine: Oracle, path: string, prefix: string, parts: seq<string>, tail: seq<string>, r: string)
    requires LastSeparator(path) >= 0 && wine(path).None? && ValidComponent(path[LastSeparator(path) + 1..])
    requires BuiltFrom(wine, TrimSeparators(path[..LastSeparator(path)]), prefix, parts,
                       [path[LastSeparator(path) + 1..]] + tail, r)
    ensures BuiltFrom(wine, path, prefix, parts + [path[LastSeparator(path) + 1..]], tail, r)
  {
    hide BuiltFrom, LastSeparator, TrimSeparators, CutAs, NoLongerResolves;
    var shorter := TrimSeparators(path[..LastSeparator(path)]);
    var part := path[LastSeparator(path) + 1..];
    BuiltParts(wine, shorter, prefix, parts, [part] + tail, r);
    CutStep(path, prefix, parts);
    LongerFails(wine, path, prefix);
    BuiltStep(wine, path, shorter, part, prefix, parts, tail, r);
  }

  lemma BuiltWhole(wine: Oracle, path: string, tail: seq<string>)
    requires wine(path).Some?
    ensures BuiltFrom(wine, path, path, [], tail,
      if tail == [] then wine(path).value else wine(path).value + "/" + Join(tail, "/"))
  {
    var none: seq<string> := [];
    assert none + tail == tail;
    NoCutIsLonger(wine, path);
  }

  lemma NoCutIsLonger(wine: Oracle, path: string)
    ensures NoLongerResolves(wine, path, path)
  {
    forall i | 0 <= i < |path| ensures |TrimSeparators(path[..i])| <= |path| {
    }
  }

  /** The components are cut at the separators the loop finds. */
  lemma CutLast(path: string, prefix: string, parts: seq<string>)
    requires CutAs(path, prefix, parts) && parts != []
    ensures var n := |parts| - 1; var i := |path| - |parts[n]| - 1;
      && i >= 0 && LastSeparator(path) == i && path[i + 1..] == parts[n]
      && CutAs(TrimSeparators(path[..i]), prefix, parts[..n])
  {
    var last := parts[|parts| - 1];
    var i := |path| - |last| - 1;
    assert path[i + 1..] == last;
    assert forall j :: i < j < |path| ==> path[j] == last[j - i - 1];
  }

  /** What is left after a cut still resolves at no longer prefix. */
  lemma ShorterFails(wine: Oracle, path: string, prefix: string)
    requires LastSeparator(path) >= 0 && NoLongerResolves(wine, path, prefix)
    requires var shorter := TrimSeparators(path[..LastSeparator(path)]); shorter == prefix || |prefix| < |shorter|
    ensures NoLongerResolves(wine, TrimSeparators(path[..LastSeparator(path)]), prefix)
  {
    var lastSlash := LastSeparator(path);
    var shorter := TrimSeparators(path[..lastSlash]);
    forall i | 0 <= i < |shorter| && IsSeparator(shorter[i]) && |TrimSeparators(shorter[..i])| > |prefix|
      ensures wine(TrimSeparators(shorter[..i])).None?
    {
      CutsOfTrimmed(path, lastSlash, i);
    }
  }

  lemma NulFreePrefix(path: string, shorter: string)
    requires shorter <= path && !HasNul(path)
    ensures !HasNul(shorter)
  {
    assert forall i :: 0 <= i < |shorter| ==> shorter[i] == path[i];
  }

  /** What is left after the last component: the prefix, or a longer path. */
  lemma CutShorter(path: string, prefix: string, parts: seq<string>)
    requires CutAs(path, prefix, parts) && parts != [] && prefix != ""
    ensures path != prefix && LastSeparator(path) >= 0 && path[LastSeparator(path) + 1..] == parts[|parts| - 1]
    ensures var shorter := TrimSeparators(path[..LastSeparator(path)]);
      shorter != "" && CutAs(shorter, prefix, parts[..|parts| - 1]) && (shorter == prefix || |prefix| < |shorter|)
  {
    hide *;
    CutIsShorter(path, prefix, parts);
    CutLast(path, prefix, parts);
    var shorter := TrimSeparators(path[..LastSeparator(path)]);
    CutIsShorter(shorter, prefix, parts[..|parts| - 1]);
    NothingCut(shorter, prefix, parts[..|parts| - 1]);
  }

  lemma ShorterBuilt(wine: Oracle, shorter: string, part: string, prefix: string, before: seq<string>, tail: seq<string>,
                     r: string)
    requires CutAs(shorter, prefix, before) && NoLongerResolves(wine, shorter, prefix) && wine(prefix).Some?
    requires forall i :: 0 <= i < |before| ==> ValidComponent(before[i])
    requires r == wine(prefix).value + "/" + Join(before + [part] + tail, "/")
    ensures BuiltFrom(wine, shorter, prefix, before, [part] + tail, r)
  {
    hide CutAs, NoLongerResolves, ValidComponent, Join;
    assert before + [part] + tail == before + ([part] + tail);
  }

  /** What is left after the last component is put together from the others. */
  lemma BuiltShorter(wine: Oracle, path: string, prefix: string, parts: seq<string>, tail: seq<string>, r: string)
    requires BuiltFrom(wine, path, prefix, parts, tail, r) && parts != [] && prefix != ""
    ensures wine(path).None? && LastSeparator(path) >= 0
    ensures var last := parts[|parts| - 1]; var shorter := TrimSeparators(path[..LastSeparator(path)]);
      && path[LastSeparator(path) + 1..] == last && ValidComponent(last) && shorter != ""
      && BuiltFrom(wine, shorter, prefix, parts[..|parts| - 1], [last] + tail, r)
  {
    hide ValidComponent, LastSeparator, TrimSeparators, Join, CutAs;
    var n := |parts| - 1;
    CutShorter(path, prefix, parts);
    assert wine(path).None?;
    hide NoLongerResolves;
    ShorterFails(wine, path, prefix);
    assert parts[..n] + [parts[n]] == parts;
    ShorterBuilt(wine, TrimSeparators(path[..LastSeparator(path)]), parts[n], prefix, parts[..n], tail, r);
    hide BuiltFrom;
  }

  lemma NothingCut(path: string, prefix: string, parts: seq<string>)
    requires CutAs(path, prefix, parts)
    ensures parts == [] ==> path == prefix
  {
  }

  lemma BuiltOfNone(wine: Oracle, path: string, prefix: string, tail: seq<string>, r: string)
    requires BuiltFrom(wine, path, prefix, [], tail, r)
    ensures path == prefix && wine(path).Some?
    ensures r == if tail == [] then wine(path).value else wine(path).value + "/" + Join(tail, "/")
  {
    var none: seq<string> := [];
    assert none + tail == tail;
    hide NoLongerResolves;
  }

  /** A path put together like this is converted. */
  lemma {:induction false} BuiltIsConverted(wine: Oracle, path: string, prefix: string, parts: seq<string>, tail: seq<string>,
                                            r: string)
    requires !HasNul(path) && BuiltFrom(wine, path, prefix, parts, tail, r) && (parts != [] ==> prefix != "")
    ensures Convert(wine, path, tail) == Converted(r)
    decreases |parts|
  {
    hide HasNul, ValidComponent, LastSeparator, TrimSeparators, Join, BuiltFrom;
    if parts == [] {
      BuiltOfNone(wine, path, prefix, tail, r);
    } else {
      var n := |parts| - 1;
      BuiltShorter(wine, path, prefix, parts, tail, r);
      var shorter := TrimSeparators(path[..LastSeparator(path)]);
      NulFreePrefix(path, shorter);
      BuiltIsConverted(wine, shorter, prefix, parts[..n], [parts[n]] + tail, r);
    }
  }

  lemma {:induction false} ConvertedIsBuilt(wine: Oracle, path: string, tail: seq<string>)
    requires Convert(wine, path, tail).Converted?
    ensures !HasNul(path)
    ensures exists prefix, parts ::
      BuiltFrom(wine, path, prefix, parts, tail, Convert(wine, path, tail).path) && (parts != [] ==> prefix != "")
    decreases |path|
  {
    if wine(path).Some? {
      BuiltWhole(wine, path, tail);
    } else {
      hide BuiltFrom, LastSeparator, TrimSeparators, CutAs, NoLongerResolves, HasNul, ValidComponent;
      var part := path[LastSeparator(path) + 1..];
      var shorter := TrimSeparators(path[..LastSeparator(path)]);
      ConvertedIsBuilt(wine, shorter, [part] + tail);
      var r := Convert(wine, path, tail).path;
      var prefix, parts :| BuiltFrom(wine, shorter, prefix, parts, [part] + tail, r) && (parts != [] ==> prefix != "");
      BuiltParts(wine, shorter, prefix, parts, [part] + tail, r);
      NothingCut(shorter, prefix, parts);
      BuiltOneMore(wine, path, prefix, parts, tail, r);
    }
  }

  /**
   * A conversion succeeds with a path exactly when the text holds no NUL and the path is Wine's
   * answer for the longest resolvable prefix cut at a separator, followed by the components cut
   * off in their original order, none of them holding an invalid character; the prefix is not
   * empty unless nothing was cut. Otherwise it fails.
   */
  lemma ConvertIsLongest(wine: Oracle, path: string, tail: seq<string>, r: string)
    ensures Convert(wine, path, tail) == Converted(r) <==>
      !HasNul(path)
      && exists prefix, parts :: BuiltFrom(wine, path, prefix, parts, tail, r) && (parts != [] ==> prefix != "")
  {
    hide Convert, BuiltFrom, HasNul;
    if Convert(wine, path, tail) == Converted(r) {
      ConvertedIsBuilt(wine, path, tail);
    }
    if prefix, parts :| !HasNul(path) && BuiltFrom(wine, path, prefix, parts, tail, r) && (parts != [] ==> prefix != "") {
      BuiltIsConverted(wine, path, prefix, parts, tail, r);
    }
  }

  /** When the conversion gives up, neither the path nor any prefix of it cut at a separator resolves. */
  lemma {:induction false} UnresolvableMeansNone(wine: Oracle, path: string, tail: seq<string>)
    requires path != ""
    requires Convert(wine, path, tail) == Failed(Unresolvable) || Convert(wine, path, tail) == Failed(ReducedToEmpty)
    ensures NoLongerResolves(wine, path, "")
    decreases |path|
  {
    var lastSlash := LastSeparator(path);
    if lastSlash >= 0 {
      var shorter := TrimSeparators(path[..lastSlash]);
      if shorter != "" {
        UnresolvableMeansNone(wine, shorter, [path[lastSlash + 1..]] + tail);
      }
      LongerFails(wine, path, "");
    }
  }
}
