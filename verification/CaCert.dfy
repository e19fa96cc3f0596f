// The game's CA file: back it up, append certificates, and restore it, reporting the
// certificates taken out (launcher-config/internal/cacert.go, common/cert.go).
module CaCert {
  import opened Wrappers
  import opened FileSystem

  /** x509 parsing and the SHA-256 fingerprint of a certificate's bytes. */
  datatype Crypto = Crypto(parses: string -> bool, fingerprint: string -> string)

  /** The certificates of a PEM file in order; None when one does not parse. */
  function Certs(c: Crypto, data: Pem): Option<seq<string>> {
    if data == [] then Some([])
    else
      var last := data[|data| - 1];
      var before := Certs(c, data[..|data| - 1]);
      if before.None? || last.Other? then before
      else if c.parses(last.raw) then Some(before.value + [last.raw]) else None
  }

  function Fingerprints(c: Crypto, certs: seq<string>): (keys: seq<string>)
    ensures |keys| == |certs|
    ensures forall i :: 0 <= i < |certs| ==> keys[i] == c.fingerprint(certs[i])
  {
    seq(|certs|, i requires 0 <= i < |certs| => c.fingerprint(certs[i]))
  }

  /** The index holds every fingerprint, at a position where it stands. */
  ghost predicate IndexOf(keys: seq<string>, index: map<string, int>) {
    && (forall k :: k in index <==> k in keys)
    && (forall k :: k in index ==> 0 <= index[k] < |keys| && keys[index[k]] == k)
  }

  lemma {:induction false} CertsNone(c: Crypto, data: Pem, i: nat)
    requires i <= |data| && Certs(c, data[..i]) == None
    ensures Certs(c, data) == None
  {
    if i == |data| {
      assert data[..i] == data;
    } else {
      assert data[..|data| - 1][..i] == data[..i];
      CertsNone(c, data[..|data| - 1], i);
    }
  }

  /** ReadFromData: the fingerprint list, its index and the certificates. */
  method ReadFromData(c: Crypto, data: Pem)
    returns (err: bool, keys: seq<string>, keyToIndex: map<string, int>, values: seq<string>)
    ensures err <==> Certs(c, data).None?
    ensures !err ==> Certs(c, data) == Some(values) && keys == Fingerprints(c, values) && IndexOf(keys, keyToIndex)
  {
    err, keys, keyToIndex, values := false, [], map[], [];
    for i := 0 to |data|
      invariant Certs(c, data[..i]) == Some(values)
      invariant keys == Fingerprints(c, values) && IndexOf(keys, keyToIndex)
    {
      assert data[..i + 1][..i] == data[..i];
      if data[i].Other? {
        continue;
      }
      if !c.parses(data[i].raw) {
        CertsNone(c, data, i + 1);
        err := true;
        return;
      }
      var fingerprint := c.fingerprint(data[i].raw);
      keys := keys + [fingerprint];
      values := values + [data[i].raw];
      keyToIndex := keyToIndex[fingerprint := |keys| - 1];
    }
    assert data[..|data|] == data;
  }

  lemma {:induction false} CertsAppend(c: Crypto, a: Pem, b: Pem)
    ensures Certs(c, a + b) ==
      if Certs(c, a).None? || Certs(c, b).None? then None else Some(Certs(c, a).value + Certs(c, b).value)
  {
    if b == [] {
      assert a + b == a;
      assert Certs(c, a).Some? ==> Certs(c, a).value + [] == Certs(c, a).value;
    } else {
      var n := |b| - 1;
      CertsAppend(c, a, b[..n]);
      assert (a + b)[..|a + b| - 1] == a + b[..n];
      if Certs(c, a).Some? && Certs(c, b[..n]).Some? && b[n].Certificate? {
        var x, y := Certs(c, a).value, Certs(c, b[..n]).value;
        assert x + y + [b[n].raw] == x + (y + [b[n].raw]);
      }
    }
  }

  function Blocks(certs: seq<string>): Pem {
    seq(|certs|, i requires 0 <= i < |certs| => Certificate(certs[i]))
  }

  lemma {:induction false} CertsOfBlocks(c: Crypto, certs: seq<string>)
    requires forall i :: 0 <= i < |certs| ==> c.parses(certs[i])
    ensures Certs(c, Blocks(certs)) == Some(certs)
  {
    if certs != [] {
      var n := |certs| - 1;
      CertsOfBlocks(c, certs[..n]);
      assert Blocks(certs)[..n] == Blocks(certs[..n]);
      assert certs[..n] + [certs[n]] == certs;
    }
  }

  /** One certificate for each fingerprint of `modified` that `original` does not have. */
  ghost predicate Removed(c: Crypto, modified: seq<string>, original: seq<string>, removed: seq<string>) {
    && (forall i, j :: 0 <= i < j < |removed| ==> c.fingerprint(removed[i]) != c.fingerprint(removed[j]))
    && (forall i :: 0 <= i < |removed| ==>
          removed[i] in modified && c.fingerprint(removed[i]) !in Fingerprints(c, original))
    && (forall k :: k in Fingerprints(c, modified) && k !in Fingerprints(c, original) ==> k in Fingerprints(c, removed))
  }

  datatype CACert = CACert(originalPath: Path) {
    const BackupPath := originalPath + ".bak"
    const TmpPath := originalPath + ".lan"

    lemma PathsDiffer()
      ensures originalPath != BackupPath && originalPath != TmpPath && BackupPath != TmpPath
    {
      assert BackupPath[|originalPath| + 1] != TmpPath[|originalPath| + 1];
    }

    /** The original is at the backup path, or what was there before still is. */
    ghost predicate Copied(before: map<Path, Pem>, after: map<Path, Pem>) {
      && originalPath in before
      && (after == before[BackupPath := before[originalPath]] || (BackupPath in before && after == before))
    }

    /**
     * Backup. An existing backup is success, with nothing copied. undoFaults counts a
     * failed removal of a half-written backup.
     */
    method Backup(fs: FileSystem) returns (ok: bool, ghost undoFaults: nat)
      modifies fs`files, fs`faults
      ensures fs.faults >= old(fs.faults) + undoFaults
      ensures forall p :: p != BackupPath ==>
        (p in fs.files <==> p in old(fs.files)) && (p in fs.files ==> fs.files[p] == old(fs.files)[p])
      ensures ok ==> originalPath in old(fs.files)
      ensures fs.faults == old(fs.faults) ==> (ok <==> originalPath in old(fs.files))
      ensures fs.faults == old(fs.faults) && BackupPath in old(fs.files) ==> fs.files == old(fs.files)
      ensures ok ==> Copied(old(fs.files), fs.files)
      ensures !ok && BackupPath !in old(fs.files) && undoFaults == 0 ==> fs.files == old(fs.files)
    {
      PathsDiffer();
      ok, undoFaults := false, 0;
      var original := fs.StatFile(originalPath);
      if !original.Exists? {
        return;
      }
      var backup := fs.StatFile(BackupPath);
      if backup.Exists? {
        return true, 0;
      }
      var read, data := fs.ReadFile(originalPath);
      if !read {
        return;
      }
      var created := fs.CreateFile(BackupPath);
      if !created {
        return;
      }
      ok := fs.WriteFile(BackupPath, data);
      if !ok {
        var removed := fs.RemoveFile(BackupPath);
        undoFaults := if removed then 0 else 1;
      }
      assert [] + data == data;
    }

    /** The file is followed by some of the certificates, from the first on, and no other file differs. */
    ghost predicate AppendedPart(before: map<Path, Pem>, after: map<Path, Pem>, certs: seq<string>) {
      && originalPath in before
      && exists k :: 0 <= k <= |certs| && after == AppendedTo(before, certs[..k])
    }

    function AppendedTo(files: map<Path, Pem>, certs: seq<string>): map<Path, Pem>
      requires originalPath in files
    {
      files[originalPath := files[originalPath] + Blocks(certs)]
    }

    /** A write that failed behind the first i certificates wrote the next one whole or not at all. */
    lemma PartWritten(before: map<Path, Pem>, after: map<Path, Pem>, certs: seq<string>, i: nat, n: nat)
      requires originalPath in before && i < |certs| && n <= 1
      requires var written := AppendedTo(before, certs[..i]);
        after == written[originalPath := written[originalPath] + [Certificate(certs[i])][..n]]
      ensures AppendedPart(before, after, certs)
    {
      var part := [Certificate(certs[i])][..n];
      assert Blocks(certs[..i + n]) == Blocks(certs[..i]) + part;
      assert before[originalPath] + Blocks(certs[..i]) + part == before[originalPath] + Blocks(certs[..i + n]);
      assert after == AppendedTo(before, certs[..i + n]);
    }

    /** Append: a failure leaves some prefix of the certificates written. */
    method Append(fs: FileSystem, certs: seq<string>) returns (ok: bool)
      modifies fs`files, fs`faults
      ensures fs.faults >= old(fs.faults)
      ensures ok ==> originalPath in old(fs.files)
      ensures fs.faults == old(fs.faults) ==> (ok <==> originalPath in old(fs.files))
      ensures ok ==> fs.files == old(fs.files)[originalPath := old(fs.files)[originalPath] + Blocks(certs)]
      ensures !ok ==> fs.files == old(fs.files) || AppendedPart(old(fs.files), fs.files, certs)
    {
      var original := fs.StatFile(originalPath);
      if !original.Exists? {
        return false;
      }
      var fails := fs.Fails();
      if fails {
        return false;
      }
      ghost var before := fs.files;
      assert before[originalPath] + Blocks(certs[..0]) == before[originalPath];
      for i := 0 to |certs|
        invariant fs.faults >= old(fs.faults)
        invariant originalPath in before
        invariant fs.files == before[originalPath := before[originalPath] + Blocks(certs[..i])]
      {
        ghost var m, next := fs.files, [Certificate(certs[i])];
        var written := fs.WriteFile(originalPath, [Certificate(certs[i])]);
        if !written {
          ghost var n :| 0 <= n <= |next| && fs.files == m[originalPath := m[originalPath] + next[..n]];
          PartWritten(before, fs.files, certs, i, n);
          return false;
        }
        assert Blocks(certs[..i + 1]) == Blocks(certs[..i]) + [Certificate(certs[i])];
        assert before[originalPath] + Blocks(certs[..i]) + [Certificate(certs[i])]
          == before[originalPath] + Blocks(certs[..i + 1]);
      }
      assert certs[..|certs|] == certs;
      ok := true;
    }

    /** The state Restore leaves when it succeeds. */
    function RestoredFiles(files: map<Path, Pem>): map<Path, Pem>
      requires BackupPath in files
    {
      (files - {BackupPath, TmpPath})[originalPath := files[BackupPath]]
    }

    /** The current and the backed-up CA file, both readable as certificates. */
    predicate Readable(c: Crypto, files: map<Path, Pem>) {
      && originalPath in files && BackupPath in files
      && Certs(c, files[originalPath]).Some? && Certs(c, files[BackupPath]).Some?
    }

    /** Renaming back in reverse order, and what removing the temporary file completes. */
    lemma RenamesUndone(files: map<Path, Pem>)
      requires originalPath in files && BackupPath in files
      ensures var m1 := (files - {originalPath})[TmpPath := files[originalPath]];
        && BackupPath in m1
        && (TmpPath !in files ==> (m1 - {TmpPath})[originalPath := m1[TmpPath]] == files)
        && (var m2 := (m1 - {BackupPath})[originalPath := m1[BackupPath]];
            && TmpPath in m2 && originalPath in m2
            && m2 - {TmpPath} == RestoredFiles(files)
            && (var m3 := (m2 - {originalPath})[BackupPath := m2[originalPath]];
                TmpPath in m3 &&
                (TmpPath !in files ==> (m3 - {TmpPath})[originalPath := m3[TmpPath]] == files)))
    {
      PathsDiffer();
    }

    /** The renames of Restore, up to the report; undoFaults counts what failed in putting the files back. */
    method SwapFiles(c: Crypto, fs: FileSystem)
      returns (ok: bool, ghost undoFaults: nat, index: map<string, int>, certs: seq<string>, hashes: seq<string>)
      modifies fs`files, fs`faults
      ensures fs.faults >= old(fs.faults) + undoFaults
      ensures ok ==> Readable(c, old(fs.files)) && fs.files == RestoredFiles(old(fs.files))
      ensures ok ==> (Certs(c, old(fs.files)[originalPath]) == Some(certs)
        && hashes == Fingerprints(c, Certs(c, old(fs.files)[BackupPath]).value)
        && IndexOf(Fingerprints(c, certs), index))
      ensures !ok && undoFaults == 0 && TmpPath !in old(fs.files) ==> fs.files == old(fs.files)
      ensures fs.faults == old(fs.faults) ==> (ok <==> TmpPath !in old(fs.files) && Readable(c, old(fs.files)))
      ensures !ok && fs.faults == old(fs.faults) ==> fs.files == old(fs.files)
    {
      PathsDiffer();
      hide RestoredFiles, Certs, IndexOf;
      ghost var m0 := fs.files;
      ok, undoFaults, index, certs, hashes := false, 0, map[], [], [];
      var original := fs.StatFile(originalPath);
      if !original.Exists? {
        return;
      }
      var backup := fs.StatFile(BackupPath);
      if !backup.Exists? {
        return;
      }
      var tmp := fs.StatFile(TmpPath);
      if tmp.Exists? {
        return;
      }
      RenamesUndone(m0);
      var renamed := fs.RenameFile(originalPath, TmpPath);
      if !renamed {
        return;
      }
      renamed := fs.RenameFile(BackupPath, originalPath);
      if !renamed {
        ghost var f := fs.faults;
        var _ := fs.RenameFile(TmpPath, originalPath);
        undoFaults := fs.faults - f;
        return;
      }
      var err;
      err, index, certs, hashes := ReadBoth(c, fs);
      if !err {
        ok := fs.RemoveFile(TmpPath);
      }
      if !ok {
        ghost var f := fs.faults;
        var _ := fs.RenameFile(originalPath, BackupPath);
        var _ := fs.RenameFile(TmpPath, originalPath);
        undoFaults := fs.faults - f;
      }
    }

    /** Reads the changed file, now at the temporary path, and the restored one. */
    method ReadBoth(c: Crypto, fs: FileSystem)
      returns (err: bool, index: map<string, int>, certs: seq<string>, hashes: seq<string>)
      requires TmpPath in fs.files && originalPath in fs.files
      modifies fs`faults
      ensures fs.faults >= old(fs.faults)
      ensures !err ==> (Certs(c, fs.files[TmpPath]) == Some(certs)
        && Certs(c, fs.files[originalPath]).Some?
        && hashes == Fingerprints(c, Certs(c, fs.files[originalPath]).value)
        && IndexOf(Fingerprints(c, certs), index))
      ensures err && fs.faults == old(fs.faults) ==>
        Certs(c, fs.files[TmpPath]).None? || Certs(c, fs.files[originalPath]).None?
    {
      index, certs, hashes := map[], [], [];
      var read, modified := fs.ReadFile(TmpPath);
      if !read {
        return true, index, certs, hashes;
      }
      var modifiedErr, _, keyToIndex, values := ReadFromData(c, modified);
      err, index, certs := modifiedErr, keyToIndex, values;
      if err {
        return;
      }
      var restored;
      read, restored := fs.ReadFile(originalPath);
      if !read {
        return true, index, certs, hashes;
      }
      var restoredErr, keys, _, _ := ReadFromData(c, restored);
      err, hashes := restoredErr, keys;
    }

    /** Restore: the certificates taken out are reported, each once. */
    method Restore(c: Crypto, fs: FileSystem) returns (ok: bool, removedCerts: seq<string>, ghost undoFaults: nat)
      modifies fs`files, fs`faults
      ensures fs.faults >= old(fs.faults) + undoFaults
      ensures ok ==> Readable(c, old(fs.files)) && fs.files == RestoredFiles(old(fs.files))
      ensures ok ==>
        Removed(c, Certs(c, old(fs.files)[originalPath]).value, Certs(c, old(fs.files)[BackupPath]).value, removedCerts)
      ensures !ok && undoFaults == 0 && TmpPath !in old(fs.files) ==> fs.files == old(fs.files)
      ensures fs.faults == old(fs.faults) ==> (ok <==> TmpPath !in old(fs.files) && Readable(c, old(fs.files)))
      ensures !ok && fs.faults == old(fs.faults) ==> fs.files == old(fs.files)
    {
      var index, certs, hashes;
      removedCerts := [];
      ok, undoFaults, index, certs, hashes := SwapFiles(c, fs);
      if ok {
        removedCerts := PickRemoved(c, index, certs, hashes);
      }
    }
  }

  /** The certificates whose fingerprints are gone, in whatever order the set yields them. */
  method PickRemoved(c: Crypto, index: map<string, int>, certs: seq<string>, hashes: seq<string>)
    returns (removed: seq<string>)
    requires IndexOf(Fingerprints(c, certs), index)
    ensures forall i, j :: 0 <= i < j < |removed| ==> c.fingerprint(removed[i]) != c.fingerprint(removed[j])
    ensures forall i :: 0 <= i < |removed| ==> removed[i] in certs && c.fingerprint(removed[i]) !in hashes
    ensures forall k :: k in Fingerprints(c, certs) && k !in hashes ==> k in Fingerprints(c, removed)
  {
    removed := [];
    var all := set k | k in index && k !in hashes;
    var rest := all;
    while rest != {}
      invariant rest <= all
      invariant forall i, j :: 0 <= i < j < |removed| ==> c.fingerprint(removed[i]) != c.fingerprint(removed[j])
      invariant forall i :: 0 <= i < |removed| ==> removed[i] in certs && c.fingerprint(removed[i]) in all - rest
      invariant forall k :: k in all && k !in rest ==> k in Fingerprints(c, removed)
    {
      var hash :| hash in rest;
      var cert := certs[index[hash]];
      assert c.fingerprint(cert) == Fingerprints(c, certs)[index[hash]] == hash;
      assert Fingerprints(c, removed + [cert]) == Fingerprints(c, removed) + [hash];
      removed := removed + [cert];
      rest := rest - {hash};
    }
  }

  ghost predicate ReportedOnce(c: Crypto, removed: seq<string>, fingerprint: string) {
    exists i :: 0 <= i < |removed| && c.fingerprint(removed[i]) == fingerprint &&
      forall j :: 0 <= j < |removed| && j != i ==> c.fingerprint(removed[j]) != fingerprint
  }

  /**
   * Backup, Append(added), Restore: the original bytes are back, no backup and no
   * temporary file is left, and the report names each added certificate that the
   * original did not have exactly once, by fingerprint.
   */
  lemma BackupAppendRestore(c: Crypto, ca: CACert, m0: map<Path, Pem>, added: seq<string>, removed: seq<string>)
    requires ca.originalPath in m0 && ca.BackupPath !in m0 && ca.TmpPath !in m0
    requires Certs(c, m0[ca.originalPath]).Some?
    requires forall i :: 0 <= i < |added| ==> c.parses(added[i])
    ensures var m1 := m0[ca.BackupPath := m0[ca.originalPath]];
      var m2 := m1[ca.originalPath := m1[ca.originalPath] + Blocks(added)];
      && ca.Readable(c, m2) && ca.RestoredFiles(m2) == m0
      && (Removed(c, Certs(c, m2[ca.originalPath]).value, Certs(c, m2[ca.BackupPath]).value, removed) ==>
          && (forall i :: 0 <= i < |removed| ==>
                removed[i] in added && c.fingerprint(removed[i]) !in Fingerprints(c, Certs(c, m0[ca.originalPath]).value))
          && (forall a :: a in added && c.fingerprint(a) !in Fingerprints(c, Certs(c, m0[ca.originalPath]).value) ==>
                ReportedOnce(c, removed, c.fingerprint(a))))
  {
    ca.PathsDiffer();
    var orig := Certs(c, m0[ca.originalPath]).value;
    CertsOfBlocks(c, added);
    CertsAppend(c, m0[ca.originalPath], Blocks(added));
    var modified := orig + added;
    if Removed(c, modified, orig, removed) {
      forall i | 0 <= i < |removed| ensures removed[i] in added {
        if removed[i] in orig {
          InFingerprints(c, orig, removed[i]);
        }
      }
      forall a | a in added && c.fingerprint(a) !in Fingerprints(c, orig)
        ensures ReportedOnce(c, removed, c.fingerprint(a))
      {
        assert a in modified;
        InFingerprints(c, modified, a);
        assert c.fingerprint(a) in Fingerprints(c, removed);
        var i :| 0 <= i < |removed| && Fingerprints(c, removed)[i] == c.fingerprint(a);
        assert c.fingerprint(removed[i]) == c.fingerprint(a);
      }
    }
  }

  lemma InFingerprints(c: Crypto, certs: seq<string>, cert: string)
    requires cert in certs
    ensures c.fingerprint(cert) in Fingerprints(c, certs)
  {
    var i :| 0 <= i < |certs| && certs[i] == cert;
    assert Fingerprints(c, certs)[i] == c.fingerprint(cert);
  }
}
