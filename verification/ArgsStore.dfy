// The file of launcher flags (launcher-common/argsStore.go). Storing reads the file, adds
// the new flags, and writes the text back from the start without truncating it.
module ArgsStore {
  import opened Wrappers
  import opened Text

  const SEPARATOR := '|'

  /** The flags not in the file, in order; one given twice is added twice. */
  function NewFlags(flags: seq<string>, existing: seq<string>): seq<string> {
    if flags == [] then []
    else
      var before := NewFlags(flags[..|flags| - 1], existing);
      if flags[|flags| - 1] in existing then before else before + [flags[|flags| - 1]]
  }

  class ArgsStore {
    var file: Option<string>

    constructor ()
      ensures file == None
    {
      file := None;
    }

    /** The flags are the parts of the file between separators, and joined they are the file again. */
    method Load() returns (flags: seq<string>)
      ensures file.None? ==> flags == []
      ensures file.Some? ==> Join(flags, [SEPARATOR]) == file.value && flags != []
      ensures forall i :: 0 <= i < |flags| ==> SEPARATOR !in flags[i]
    {
      if file.None? {
        return [];
      }
      flags := Split(file.value, SEPARATOR);
      JoinSplit(file.value, SEPARATOR);
      SplitPartsClean(file.value, SEPARATOR);
      hide Split, Join;
    }

    /** The text written extends the text read, so nothing of the old file is left behind it. */
    method Store(flags: seq<string>)
      modifies this
      ensures var content := if old(file).None? then "" else old(file).value;
        var saved := Split(content, SEPARATOR) + NewFlags(flags, Split(content, SEPARATOR));
        file == Some(Join(saved, [SEPARATOR]))
    {
      var content := if file.None? then "" else file.value;
      var flagsToSave := Split(content, SEPARATOR);
      ghost var existing := flagsToSave;
      var existingFlags := set f | f in flagsToSave;
      for i := 0 to |flags|
        invariant flagsToSave == existing + NewFlags(flags[..i], existing)
      {
        assert flags[..i + 1][..i] == flags[..i];
        if flags[i] !in existingFlags {
          flagsToSave := flagsToSave + [flags[i]];
        }
      }
      assert flags[..|flags|] == flags;
      JoinSplit(content, SEPARATOR);
      JoinExtends(existing, NewFlags(flags, existing), [SEPARATOR]);
      OverwriteExtends(content, Join(flagsToSave, [SEPARATOR]));
      file := Some(Overwrite(content, Join(flagsToSave, [SEPARATOR])));
    }

    method Delete()
      modifies this
      ensures file == None
    {
      file := None;
    }
  }

  lemma OverwriteExtends(before: string, after: string)
    requires before <= after
    ensures Overwrite(before, after) == after
  {
  }

  lemma {:induction false} JoinExtends(parts: seq<string>, more: seq<string>, sep: string)
    requires parts != []
    ensures Join(parts, sep) <= Join(parts + more, sep)
  {
    if more == [] {
      assert parts + more == parts;
    } else {
      var n := |more| - 1;
      JoinExtends(parts, more[..n], sep);
      JoinAppend(parts + more[..n], more[n], sep);
      assert parts + more == parts + more[..n] + [more[n]];
    }
  }

  lemma {:induction false} NewFlagsFrom(flags: seq<string>, existing: seq<string>)
    ensures forall i :: 0 <= i < |NewFlags(flags, existing)| ==>
      NewFlags(flags, existing)[i] in flags && NewFlags(flags, existing)[i] !in existing
    ensures forall f :: f in flags && f !in existing ==> f in NewFlags(flags, existing)
  {
    if flags != [] {
      NewFlagsFrom(flags[..|flags| - 1], existing);
    }
  }

  /**
   * After a store, the file reads as the flags it had followed by the new ones, exactly
   * when none of the new ones holds the separator.
   */
  lemma StoredFlagsLoad(content: string, flags: seq<string>)
    ensures var existing := Split(content, SEPARATOR); var added := NewFlags(flags, existing);
      Split(Join(existing + added, [SEPARATOR]), SEPARATOR) == existing + added <==>
        forall i :: 0 <= i < |added| ==> SEPARATOR !in added[i]
  {
    var existing := Split(content, SEPARATOR);
    var added := NewFlags(flags, existing);
    SplitPartsClean(content, SEPARATOR);
    if forall i :: 0 <= i < |added| ==> SEPARATOR !in added[i] {
      SplitJoin(existing + added, SEPARATOR);
    } else {
      var i :| 0 <= i < |added| && SEPARATOR in added[i];
      SplitPartsClean(Join(existing + added, [SEPARATOR]), SEPARATOR);
      assert (existing + added)[|existing| + i] == added[i];
    }
  }

  /** Only the parts between separators join to the file, so loading gives those. */
  lemma LoadedFlags(content: string, flags: seq<string>)
    requires Join(flags, [SEPARATOR]) == content && flags != []
    requires forall i :: 0 <= i < |flags| ==> SEPARATOR !in flags[i]
    ensures flags == Split(content, SEPARATOR)
  {
    SplitJoin(flags, SEPARATOR);
  }
}
