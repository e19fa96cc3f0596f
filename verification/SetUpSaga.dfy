// The launcher's configuration set-up as a saga: each step done raises a flag, and a
// failing step runs the undo of every flagged one (launcher-config/internal/cmd/setUp.go).
module SetUpSaga {
  import opened Wrappers
  import opened FileSystem
  import opened UserDataPath
  import opened Isolation
  import opened Profiles
  import opened CaCert

  /** A certificate in the user's store; own ones carry the launcher's subject. */
  datatype UserCert = UserCert(raw: string, own: bool)

  /** The flags of the command; a certificate is given by its bytes. */
  datatype SetupValues = SetupValues(
    addUserCert: Option<UserCert>,
    metadata: bool,
    profiles: bool,
    addCaCert: Option<string>,
    gamePathSet: bool,
    certFileSet: bool,
    localCertGiven: bool,
    hostFileSet: bool,
    mapIps: bool)

  /** Adding a certificate to the user's store; it may be reported as failed after it took place. */
  datatype CertAddition = Added | NotAdded | AddedAnyway

  /** How the parts outside this model turn out. */
  datatype World = World(
    gameSupported: bool,
    dataPathValid: bool,
    userCertAddition: CertAddition,
    hostFileAdded: bool,
    certFileSaved: bool,
    agentConnected: bool,
    adminSucceeds: bool)

  datatype Game = AoE1 | AoE4 | OtherGame

  /** The same code stands for a user certificate not added and a certificate file not saved. */
  datatype Exit =
    | Success | InvalidGame | InvalidDataPath | MissingLocalCertData
    | UserCertAddParse | UserCertAdd | MetadataBackup | ProfilesBackup
    | GamePathMissing | GameCertAddParse | GameCertBackup | GameCertAdd
    | HostsAdd | AdminSetup

  /** AoE1 and AoE4 have no CA file of their own, and AoE1 no metadata. */
  function Effective(v: SetupValues, g: Game): SetupValues {
    match g
    case AoE1 => v.(metadata := false, addCaCert := None)
    case AoE4 => v.(addCaCert := None)
    case OtherGame => v
  }

  /** Those two rules, and nothing else, change what was asked for. */
  lemma EffectiveExactly(values: SetupValues, game: Game)
    ensures var v := Effective(values, game);
      && v.metadata == (values.metadata && game != AoE1) && v.profiles == values.profiles
      && v.addCaCert == (if game == OtherGame then values.addCaCert else None) && v.addUserCert == values.addUserCert
      && v.gamePathSet == values.gamePathSet && v.certFileSet == values.certFileSet
      && v.localCertGiven == values.localCertGiven && v.hostFileSet == values.hostFileSet && v.mapIps == values.mapIps
  {
    match game
    case AoE1 =>
    case AoE4 =>
    case OtherGame =>
  }

  // ---------- the user's certificates ----------

  function OwnCerts(certs: set<UserCert>): set<UserCert> {
    set u | u in certs && u.own
  }

  /** Adding a certificate and then removing the own ones. */
  function CertsUndone(before: set<UserCert>, crt: UserCert): set<UserCert> {
    before + {crt} - OwnCerts(before + {crt})
  }

  /** No own certificate is there, and the one to add is own or there already. */
  predicate CertReversible(before: set<UserCert>, crt: UserCert) {
    OwnCerts(before) == {} && (crt.own || crt in before)
  }

  /** Removing the own certificates undoes an addition exactly when it is reversible. */
  lemma CertsUndoneExactly(before: set<UserCert>, crt: UserCert)
    ensures CertsUndone(before, crt) == before <==> CertReversible(before, crt)
  {
    if CertsUndone(before, crt) == before {
      assert forall u :: u in before ==> u in CertsUndone(before, crt);
      if !crt.own {
        assert crt in CertsUndone(before, crt);
      }
    }
  }

  /** A certificate of another issuer stays. */
  lemma ForeignCertStays(before: set<UserCert>, crt: UserCert)
    requires !crt.own && crt !in before
    ensures crt in CertsUndone(before, crt) && CertsUndone(before, crt) != before
  {
  }

  /** An own certificate from before is removed with the added one. */
  lemma OwnCertLost(before: set<UserCert>, crt: UserCert, u: UserCert)
    requires u in before && u.own
    ensures u !in CertsUndone(before, crt) && CertsUndone(before, crt) != before
  {
  }

  // ---------- the folders ----------

  lemma SameSelf(a: map<Path, Folder>)
    ensures SameContents(a, a)
  {
  }

  /** The folders at entry, behind the metadata step, and now. */
  datatype Folders = Folders(entry: map<Path, Folder>, middle: map<Path, Folder>, now: map<Path, Folder>)

  /** What the two folder steps have done. */
  ghost predicate FolderSteps(f: Folders, metadataPath: Path, profiles: seq<Path>, metadata: bool, profilesDone: bool) {
    && OnlyAt(f.entry, f.middle, Places(metadataPath)) && OnlyAt(f.middle, f.now, AllPlaces(profiles))
    && (if metadata then SwitchedAt(f.entry, f.middle, metadataPath, ToServer) else SameContents(f.entry, f.middle))
    && (if profilesDone then AllSwitched(f.middle, f.now, profiles, ToServer) else SameContents(f.middle, f.now))
  }

  lemma NoFolderSteps(m: map<Path, Folder>, metadataPath: Path, profiles: seq<Path>)
    ensures FolderSteps(Folders(m, m, m), metadataPath, profiles, false, false)
  {
    SameSelf(m);
    OnlyAtSame(m, Places(metadataPath));
    OnlyAtSame(m, AllPlaces(profiles));
  }

  lemma MetadataStep(m0: map<Path, Folder>, m1: map<Path, Folder>, metadataPath: Path, profiles: seq<Path>, metadata: bool)
    requires OnlyAt(m0, m1, Places(metadataPath))
    requires if metadata then SwitchedAt(m0, m1, metadataPath, ToServer) else SameContents(m0, m1)
    ensures FolderSteps(Folders(m0, m1, m1), metadataPath, profiles, metadata, false)
  {
    SameSelf(m1);
    OnlyAtSame(m1, AllPlaces(profiles));
    hide OnlyAt, SwitchedAt, SameContents, Places, AllPlaces;
  }

  lemma ProfilesStep(m0: map<Path, Folder>, m1: map<Path, Folder>, m2: map<Path, Folder>, metadataPath: Path, profiles: seq<Path>,
                     metadata: bool, profilesDone: bool)
    requires FolderSteps(Folders(m0, m1, m1), metadataPath, profiles, metadata, false)
    requires OnlyAt(m1, m2, AllPlaces(profiles))
    requires if profilesDone then AllSwitched(m1, m2, profiles, ToServer) else SameContents(m1, m2)
    ensures FolderSteps(Folders(m0, m1, m2), metadataPath, profiles, metadata, profilesDone)
  {
    hide OnlyAt, SwitchedAt, AllSwitched, SameContents, Places, AllPlaces;
  }

  /** A switch, anything elsewhere, and the reverse switch. */
  lemma SwitchBack(m0: map<Path, Folder>, m1: map<Path, Folder>, m2: map<Path, Folder>, m3: map<Path, Folder>, path: Path)
    requires TypeOf(path) == Active
    requires SwitchedAt(m0, m1, path, ToServer) && SameAt(m1, m2, path) && SwitchedAt(m2, m3, path, ToOriginal)
    ensures SameAt(m0, m3, path)
  {
    hide TrimExt, TypeOf, TransformPath;
    PlacesDiffer(path);
    assert path in Places(path) && OriginalPath(path) in Places(path) && IsolatedPath(path) in Places(path);
  }

  lemma ProfilesBack(m0: map<Path, Folder>, m1: map<Path, Folder>, m2: map<Path, Folder>, m3: map<Path, Folder>,
                     profiles: seq<Path>)
    requires Separate(profiles)
    requires AllSwitched(m0, m1, profiles, ToServer) && AllSwitched(m2, m3, profiles, ToOriginal)
    requires forall p :: p in AllPlaces(profiles) ==> Look(m1, p) == Look(m2, p)
    ensures forall p :: p in AllPlaces(profiles) ==> Look(m0, p) == Look(m3, p)
  {
    hide Places, SwitchedAt;
    forall i | 0 <= i < |profiles| ensures SameAt(m0, m3, profiles[i]) {
      assert SameAt(m1, m2, profiles[i]) by {
        forall p | p in Places(profiles[i]) ensures Look(m1, p) == Look(m2, p) {
          assert p in AllPlaces(profiles);
        }
      }
      SwitchBack(m0, m1, m2, m3, profiles[i]);
    }
  }

  /** The two folder steps and their undoing leave every content as at entry. */
  lemma FoldersBack(f: Folders, m3: map<Path, Folder>, m4: map<Path, Folder>,
                    metadataPath: Path, profiles: seq<Path>, metadata: bool, profilesDone: bool)
    requires TypeOf(metadataPath) == Active && Separate(profiles) && AllPlaces(profiles) !! Places(metadataPath)
    requires FolderSteps(f, metadataPath, profiles, metadata, profilesDone)
    requires OnlyAt(f.now, m3, Places(metadataPath)) && OnlyAt(m3, m4, AllPlaces(profiles))
    requires if metadata then SwitchedAt(f.now, m3, metadataPath, ToOriginal) else SameContents(f.now, m3)
    requires if profilesDone then AllSwitched(m3, m4, profiles, ToOriginal) else SameContents(m3, m4)
    ensures SameContents(f.entry, m4)
  {
    var own, others := Places(metadataPath), AllPlaces(profiles);
    hide Places, AllPlaces, SwitchedAt, AllSwitched, TypeOf, Separate;
    if metadata {
      assert SameAt(f.middle, f.now, metadataPath);
      SwitchBack(f.entry, f.middle, f.now, m3, metadataPath);
    }
    if profilesDone {
      forall p | p in others ensures Look(f.now, p) == Look(m3, p) {
        assert p !in own;
      }
      ProfilesBack(f.middle, f.now, m3, m4, profiles);
    }
    forall p ensures Look(f.entry, p) == Look(m4, p) {
      if p in own {
        assert p !in others;
      }
    }
  }

  lemma AsideFree(m0: map<Path, Folder>, m1: map<Path, Folder>, m2: map<Path, Folder>, at: set<Path>, path: Path)
    requires TypeOf(path) == Active && SwitchedAt(m0, m1, path, ToServer)
    requires OnlyAt(m1, m2, at) && at !! Places(path)
    ensures ToOriginal.Aside(path) !in m2
  {
    hide TypeOf, TransformPath, TrimExt;
    AsideInPlaces(path, ToOriginal);
    SwitchUndone(m0, m1, m1, path, ToServer);
  }

  lemma PlacesInAll(profiles: seq<Path>, i: nat)
    requires i < |profiles|
    ensures Places(profiles[i]) <= AllPlaces(profiles)
  {
    hide Places;
  }

  /** With the folders switched, nothing is in the way of switching them back. */
  lemma BackIsFree(f: Folders, m3: map<Path, Folder>, metadataPath: Path, profiles: seq<Path>, metadata: bool, profilesDone: bool)
    requires TypeOf(metadataPath) == Active && Separate(profiles) && AllPlaces(profiles) !! Places(metadataPath)
    requires FolderSteps(f, metadataPath, profiles, metadata, profilesDone)
    requires OnlyAt(f.now, m3, Places(metadataPath))
    ensures metadata ==> ToOriginal.Aside(metadataPath) !in f.now
    ensures profilesDone ==> AsidesFree(m3, profiles)
  {
    hide TypeOf, TrimExt, Places, AllPlaces, OnlyAt, SwitchedAt, Direction.Aside;
    if metadata {
      AsideFree(f.entry, f.middle, f.now, AllPlaces(profiles), metadataPath);
    }
    if profilesDone {
      forall i | 0 <= i < |profiles| ensures ToOriginal.Aside(profiles[i]) !in m3 {
        PlacesInAll(profiles, i);
        AsideFree(f.middle, f.now, m3, Places(metadataPath), profiles[i]);
      }
    }
  }

  /** Every path the profiles are moved aside to in the restore is free. */
  ghost predicate AsidesFree(m: map<Path, Folder>, profiles: seq<Path>) {
    forall i :: 0 <= i < |profiles| ==> ToOriginal.Aside(profiles[i]) !in m
  }

  /** Some profile has a backup in the way. */
  ghost predicate AnyBackup(m: map<Path, Folder>, profiles: seq<Path>) {
    exists i :: 0 <= i < |profiles| && ToServer.Aside(profiles[i]) in m
  }

  /** Work on the metadata folder leaves the profiles' backups as they were. */
  lemma BackupsStay(a: map<Path, Folder>, b: map<Path, Folder>, metadataPath: Path, profiles: seq<Path>)
    requires OnlyAt(a, b, Places(metadataPath)) && AllPlaces(profiles) !! Places(metadataPath)
    ensures AnyBackup(a, profiles) <==> AnyBackup(b, profiles)
  {
    forall i | 0 <= i < |profiles| ensures ToServer.Aside(profiles[i]) in a <==> ToServer.Aside(profiles[i]) in b {
      PlacesInAll(profiles, i);
      AsideInPlaces(profiles[i], ToServer);
    }
    hide OnlyAt, Places, AllPlaces, Direction.Aside;
  }

  // ---------- the CA file ----------

  /** Neither a backup nor a temporary file from an earlier set-up. */
  predicate CaFree(ca: CACert, files: map<Path, Pem>) {
    ca.BackupPath !in files && ca.TmpPath !in files
  }

  /** The CA file is backed up and followed by certificates, as a step that raised its flag leaves it. */
  ghost predicate CaBackedUp(c: Crypto, ca: CACert, entry: map<Path, Pem>, files: map<Path, Pem>) {
    exists base, certs :: ca.Copied(entry, base) && Parseable(c, certs) && files == ca.AppendedTo(base, certs)
  }

  predicate Parseable(c: Crypto, certs: seq<string>) {
    forall i :: 0 <= i < |certs| ==> c.parses(certs[i])
  }

  /** Restoring undoes the step exactly when there was no backup and no temporary file. */
  lemma CaUndoneExactly(c: Crypto, ca: CACert, entry: map<Path, Pem>, files: map<Path, Pem>)
    requires CaBackedUp(c, ca, entry, files)
    ensures ca.BackupPath in files && (ca.RestoredFiles(files) == entry <==> CaFree(ca, entry))
  {
    ca.PathsDiffer();
    var base, certs :| ca.Copied(entry, base) && Parseable(c, certs) && files == ca.AppendedTo(base, certs);
    if ca.RestoredFiles(files) == entry {
      assert ca.BackupPath !in ca.RestoredFiles(files) && ca.TmpPath !in ca.RestoredFiles(files);
    }
  }

  /** A backup from before is taken for the set-up's own. */
  lemma ExistingBackupTaken(ca: CACert, entry: map<Path, Pem>, certs: seq<string>)
    requires ca.originalPath in entry && ca.BackupPath in entry
    ensures var restored := ca.RestoredFiles(ca.AppendedTo(entry, certs));
      && restored[ca.originalPath] == entry[ca.BackupPath]
      && ca.BackupPath !in restored && restored != entry
  {
    ca.PathsDiffer();
  }

  /** The files at entry parse as certificates, and no temporary file is in the way. */
  predicate CaReadable(c: Crypto, ca: CACert, entry: map<Path, Pem>) {
    && ca.TmpPath !in entry
    && (ca.originalPath in entry ==> Certs(c, entry[ca.originalPath]).Some?)
    && (ca.BackupPath in entry ==> Certs(c, entry[ca.BackupPath]).Some?)
  }

  /** Then the restore has what it needs. */
  lemma CaRestorable(c: Crypto, ca: CACert, entry: map<Path, Pem>, files: map<Path, Pem>)
    requires CaBackedUp(c, ca, entry, files) && CaReadable(c, ca, entry)
    ensures ca.TmpPath !in files && ca.Readable(c, files)
  {
    ca.PathsDiffer();
    var base, certs :| ca.Copied(entry, base) && Parseable(c, certs) && files == ca.AppendedTo(base, certs);
    CertsOfBlocks(c, certs);
    CertsAppend(c, entry[ca.originalPath], Blocks(certs));
    hide Certs, Blocks;
  }

  /** What Backup and Append leave once Backup has succeeded. */
  lemma CaStepDone(c: Crypto, ca: CACert, entry: map<Path, Pem>, base: map<Path, Pem>, files: map<Path, Pem>, raw: string)
    requires ca.Copied(entry, base) && c.parses(raw)
    requires files == base || ca.AppendedPart(base, files, [raw])
    ensures CaBackedUp(c, ca, entry, files)
  {
    ca.PathsDiffer();
    var k := 0;
    if files != base {
      k :| 0 <= k <= 1 && files == ca.AppendedTo(base, [raw][..k]);
    } else {
      assert base[ca.originalPath] + Blocks([raw][..0]) == base[ca.originalPath];
    }
    assert Parseable(c, [raw][..k]) && files == ca.AppendedTo(base, [raw][..k]);
  }

  // ---------- the process ----------

  /**
   * The launcher-config process: what it changes and its undo flags. The ghost fields are
   * the state at entry and between the folder steps, whether an operation that undoes
   * another has failed, and how many failed without a reason; and what was changed by a
   * step that failed: a certificate added all the same, or an earlier backup replaced.
   */
  class SetUp {
    const fs: FileSystem
    const crypto: Crypto
    const metadataPath: Path
    const profiles: seq<Path>
    const ca: CACert
    var userCerts: set<UserCert>
    var addedUserCert: bool
    var backedUpMetadata: bool
    var backedUpProfiles: bool
    var addedGameCert: bool
    ghost var userCerts0: set<UserCert>
    ghost var folders0: map<Path, Folder>
    ghost var folders1: map<Path, Folder>
    ghost var files0: map<Path, Pem>
    ghost var undoFailed: bool
    ghost var undoFaults: nat
    ghost var certAddedAnyway: bool
    ghost var backupReplaced: bool

    constructor (fs: FileSystem, crypto: Crypto, metadataPath: Path, profiles: seq<Path>, ca: CACert, userCerts: set<UserCert>)
      requires TypeOf(metadataPath) == Active && Separate(profiles)
      requires AllPlaces(profiles) !! Places(metadataPath)
      ensures this.fs == fs && this.userCerts == userCerts && Fits() && Fresh()
      ensures this.crypto == crypto && this.metadataPath == metadataPath && this.profiles == profiles && this.ca == ca
    {
      this.fs, this.crypto, this.metadataPath, this.profiles, this.ca := fs, crypto, metadataPath, profiles, ca;
      this.userCerts, userCerts0 := userCerts, userCerts;
      folders0, folders1, files0 := fs.folders, fs.folders, fs.files;
      addedUserCert, backedUpMetadata, backedUpProfiles, addedGameCert := false, false, false, false;
      undoFailed, undoFaults, certAddedAnyway, backupReplaced := false, 0, false, false;
    }

    /** The folders to isolate are active ones that share no path. */
    ghost predicate Fits() {
      && TypeOf(metadataPath) == Active && Separate(profiles)
      && AllPlaces(profiles) !! Places(metadataPath)
    }

    ghost predicate Fresh()
      reads this, fs
    {
      && userCerts == userCerts0 && folders1 == folders0 == fs.folders && fs.files == files0
      && !addedUserCert && !backedUpMetadata && !backedUpProfiles && !addedGameCert
      && !undoFailed && undoFaults == 0 && !certAddedAnyway && !backupReplaced
    }

    /** Everything is as at entry, up to empty folders. */
    ghost predicate Unchanged()
      reads this, fs
    {
      && userCerts == userCerts0
      && SameContents(folders0, fs.folders)
      && fs.files == files0
    }

    /** The certificates are those at entry and, if it was added, the new one. */
    ghost predicate UserCertsMatch(crt: Option<UserCert>)
      reads this`userCerts, this`userCerts0, this`addedUserCert, this`certAddedAnyway
    {
      && !(addedUserCert && certAddedAnyway)
      && (addedUserCert || certAddedAnyway ==> crt.Some?)
      && userCerts == if addedUserCert || certAddedAnyway then userCerts0 + {crt.value} else userCerts0
    }

    ghost function FolderStates(): Folders
      reads this`folders0, this`folders1, fs`folders
    {
      Folders(folders0, folders1, fs.folders)
    }

    ghost predicate FoldersMatch()
      reads this`folders0, this`folders1, this`backedUpMetadata, this`backedUpProfiles, fs`folders
    {
      FolderSteps(FolderStates(), metadataPath, profiles, backedUpMetadata, backedUpProfiles)
    }

    ghost predicate FilesMatch()
      reads this`files0, this`addedGameCert, this`backupReplaced, fs`files
    {
      if addedGameCert then !backupReplaced && CaBackedUp(crypto, ca, files0, fs.files)
      else if backupReplaced then ca.BackupPath in files0 && fs.files != files0
      else fs.files == files0
    }

    /** The CA file ends in the certificate. */
    ghost predicate CertAdded(raw: string)
      reads this`files0, fs`files
    {
      exists base :: ca.Copied(files0, base) && fs.files == ca.AppendedTo(base, [raw])
    }

    /** The flags say exactly what has been done so far, unless undoing something failed. */
    ghost predicate FlagsMatch(crt: Option<UserCert>)
      reads this, fs
    {
      && UserCertsMatch(crt)
      && (undoFaults == 0 ==> !undoFailed)
      && (!undoFailed ==> FoldersMatch() && FilesMatch())
    }

    /** What was done can be undone: checked on the state at entry. */
    ghost predicate Reversible(crt: Option<UserCert>)
      reads this`userCerts0, this`files0, this`addedUserCert, this`certAddedAnyway, this`addedGameCert, this`backupReplaced
    {
      && (addedUserCert && crt.Some? ==> CertReversible(userCerts0, crt.value))
      && (certAddedAnyway && crt.Some? ==> crt.value in userCerts0)
      && (addedGameCert || backupReplaced ==> CaFree(ca, files0))
    }

    // ---------- undoing ----------

    /** The removal may stop part of the way; on Windows it also fails when there is nothing to remove. */
    method RemoveUserCerts() returns (ok: bool)
      modifies this`userCerts, this`undoFaults
      ensures ok ==> userCerts == old(userCerts) - OwnCerts(old(userCerts))
      ensures undoFaults >= old(undoFaults)
      ensures !ok && undoFaults == old(undoFaults) ==> WINDOWS && OwnCerts(old(userCerts)) == {}
    {
      var own := OwnCerts(userCerts);
      ok := *;
      if ok {
        userCerts := userCerts - own;
        ok := !(WINDOWS && own == {});
      } else {
        var removed: set<UserCert> := *;
        userCerts, undoFaults := userCerts - removed * own, undoFaults + 1;
      }
    }

    /** What undoing needs besides operations that do not fail: readable files, and on Windows a certificate to remove. */
    ghost predicate UndoWorks(crt: Option<UserCert>)
      reads this`userCerts0, this`files0, this`addedUserCert, this`addedGameCert
    {
      && (addedUserCert && crt.Some? ==> !WINDOWS || OwnCerts(userCerts0 + {crt.value}) != {})
      && (addedGameCert ==> CaReadable(crypto, ca, files0))
    }

    /**
     * undoSetUp: every flagged step is undone, in the order they were done; results are
     * ignored. When no undo operation has failed, everything is as at entry exactly when
     * it was reversible; and none fails for any other reason than a fault.
     */
    method UndoSetUp(ghost crt: Option<UserCert>)
      requires Fits() && FlagsMatch(crt)
      modifies this`userCerts, this`undoFailed, this`undoFaults, fs
      ensures undoFaults >= old(undoFaults) && fs.faults >= old(fs.faults)
      ensures !undoFailed ==> SameContents(folders0, fs.folders)
      ensures !undoFailed ==> (Unchanged() <==> Reversible(crt))
      ensures undoFaults == 0 && UndoWorks(crt) ==> !undoFailed
    {
      hide FolderSteps, Fits, CaBackedUp, CaReadable, OnlyAt, SwitchedAt, AllSwitched, SameContents, Places, AllPlaces,
        Separate, CertReversible;
      if addedUserCert {
        UndoUserCert(crt.value);
      }
      UndoFolders();
      if addedGameCert {
        UndoGameCert();
      }
    }

    method UndoUserCert(ghost crt: UserCert)
      requires userCerts == userCerts0 + {crt} && (undoFaults == 0 ==> !undoFailed)
      modifies this`userCerts, this`undoFailed, this`undoFaults
      ensures undoFaults >= old(undoFaults) && (old(undoFailed) ==> undoFailed)
      ensures !undoFailed ==> (userCerts == userCerts0 <==> CertReversible(userCerts0, crt))
      ensures undoFaults == 0 && undoFailed ==> WINDOWS && OwnCerts(userCerts0 + {crt}) == {}
    {
      CertsUndoneExactly(userCerts0, crt);
      var ok := RemoveUserCerts();
      undoFailed := undoFailed || !ok;
    }

    method UndoFolders()
      requires Fits() && (!undoFailed ==> FoldersMatch())
      modifies this`undoFailed, this`undoFaults, fs`folders, fs`faults
      ensures undoFaults >= old(undoFaults) && (old(undoFailed) ==> undoFailed) && fs.faults >= old(fs.faults)
      ensures !undoFailed ==> SameContents(folders0, fs.folders)
      ensures undoFaults == 0 ==> undoFailed == old(undoFailed)
    {
      hide FolderSteps, OnlyAt, SwitchedAt, AllSwitched, SameContents, Places, AllPlaces, Separate, TypeOf, AsidesFree;
      ghost var f := FolderStates();
      UndoMetadata();
      ghost var m3 := fs.folders;
      if !old(undoFailed) {
        BackIsFree(f, m3, metadataPath, profiles, backedUpMetadata, backedUpProfiles);
      }
      UndoProfiles();
      if !undoFailed {
        FoldersBack(f, m3, fs.folders, metadataPath, profiles, backedUpMetadata, backedUpProfiles);
      }
    }

    method UndoMetadata()
      requires Fits() && (!undoFailed ==> FoldersMatch())
      modifies this`undoFailed, this`undoFaults, fs`folders, fs`faults
      ensures undoFaults >= old(undoFaults) && (old(undoFailed) ==> undoFailed) && fs.faults >= old(fs.faults)
      ensures OnlyAt(old(fs.folders), fs.folders, Places(metadataPath))
      ensures !undoFailed ==>
        if backedUpMetadata then SwitchedAt(old(fs.folders), fs.folders, metadataPath, ToOriginal)
        else SameContents(old(fs.folders), fs.folders)
      ensures undoFaults == 0 ==> undoFailed == old(undoFailed)
    {
      ghost var f, faults := FolderStates(), fs.faults;
      OnlyAtSame(fs.folders, Places(metadataPath));
      SameSelf(fs.folders);
      if backedUpMetadata {
        if !undoFailed {
          BackIsFree(f, fs.folders, metadataPath, profiles, backedUpMetadata, backedUpProfiles);
        }
        hide FolderSteps, OnlyAt, SwitchedAt, SameContents, Places, AllPlaces, Separate, TypeOf;
        var ok, _ := SwitchData(fs, metadataPath, ToOriginal);
        undoFailed, undoFaults := undoFailed || !ok, undoFaults + (fs.faults - faults);
      }
    }

    method UndoProfiles()
      requires Fits()
      requires backedUpProfiles && !undoFailed ==> AsidesFree(fs.folders, profiles)
      modifies this`undoFailed, this`undoFaults, fs`folders, fs`faults
      ensures undoFaults >= old(undoFaults) && (old(undoFailed) ==> undoFailed) && fs.faults >= old(fs.faults)
      ensures OnlyAt(old(fs.folders), fs.folders, AllPlaces(profiles))
      ensures !undoFailed ==>
        if backedUpProfiles then AllSwitched(old(fs.folders), fs.folders, profiles, ToOriginal)
        else SameContents(old(fs.folders), fs.folders)
      ensures undoFaults == 0 ==> undoFailed == old(undoFailed)
    {
      hide FolderSteps, AllPlaces, Places, SwitchedAt, AllSwitched, OnlyAt, SameContents, Settled, Separate, TypeOf,
        Direction.Aside;
      ghost var faults := fs.faults;
      OnlyAtSame(fs.folders, AllPlaces(profiles));
      SameSelf(fs.folders);
      if backedUpProfiles {
        var ok, _, _ := RunProfileMethod(fs, profiles, ToOriginal, true);
        undoFailed, undoFaults := undoFailed || !ok, undoFaults + (fs.faults - faults);
      }
    }

    method UndoGameCert()
      requires addedGameCert && (!undoFailed ==> FilesMatch())
      modifies this`undoFailed, this`undoFaults, fs`files, fs`faults
      ensures undoFaults >= old(undoFaults) && (old(undoFailed) ==> undoFailed) && fs.faults >= old(fs.faults)
      ensures !undoFailed ==> (fs.files == files0 <==> CaFree(ca, files0))
      ensures undoFaults == 0 && CaReadable(crypto, ca, files0) ==> undoFailed == old(undoFailed)
    {
      ghost var faults := fs.faults;
      if !undoFailed {
        CaUndoneExactly(crypto, ca, files0, fs.files);
        if CaReadable(crypto, ca, files0) {
          CaRestorable(crypto, ca, files0, fs.files);
        }
      }
      hide CaBackedUp, CaReadable, Removed, CACert.Readable, Certs;
      var ok, _, _ := ca.Restore(crypto, fs);
      undoFailed, undoFaults := undoFailed || !ok, undoFaults + (fs.faults - faults);
    }

    // ---------- the steps ----------

    method StepUserCert(crt: UserCert, w: World) returns (failure: Option<Exit>)
      requires !addedUserCert && !certAddedAnyway && userCerts == userCerts0
      modifies this`userCerts, this`addedUserCert, this`certAddedAnyway
      ensures UserCertsMatch(Some(crt)) && (addedUserCert ==> userCerts == userCerts0 + {crt})
      ensures failure ==
        if addedUserCert then None else if crypto.parses(crt.raw) then Some(UserCertAdd) else Some(UserCertAddParse)
      ensures addedUserCert <==> crypto.parses(crt.raw) && w.userCertAddition == Added
      ensures certAddedAnyway <==> crypto.parses(crt.raw) && w.userCertAddition == AddedAnyway
    {
      if !crypto.parses(crt.raw) {
        return Some(UserCertAddParse);
      }
      if w.userCertAddition != NotAdded {
        userCerts := userCerts + {crt};
      }
      if w.userCertAddition != Added {
        certAddedAnyway := w.userCertAddition == AddedAnyway;
        return Some(UserCertAdd);
      }
      addedUserCert := true;
      failure := None;
    }

    method StepMetadata() returns (failure: Option<Exit>)
      requires Fits() && !backedUpMetadata && !backedUpProfiles && folders0 == folders1 == fs.folders
      requires undoFaults == 0 ==> !undoFailed
      modifies this`backedUpMetadata, this`folders1, this`undoFailed, this`undoFaults, fs`folders, fs`faults
      ensures !undoFailed ==> FoldersMatch()
      ensures failure == if backedUpMetadata then None else Some(MetadataBackup)
      ensures folders1 == fs.folders && OnlyAt(old(fs.folders), fs.folders, Places(metadataPath))
      ensures fs.faults >= old(fs.faults)
      ensures fs.faults == old(fs.faults) ==> (failure.None? <==> ToServer.Aside(metadataPath) !in old(fs.folders))
      ensures undoFaults >= old(undoFaults) && (undoFaults == 0 ==> !undoFailed)
    {
      hide FolderSteps, SwitchedAt, OnlyAt, SameContents, Places, AllPlaces, Separate, TypeOf;
      ghost var before := fs.folders;
      var ok, undoFaults1 := SwitchData(fs, metadataPath, ToServer);
      if ok || undoFaults1 == 0 {
        MetadataStep(before, fs.folders, metadataPath, profiles, ok);
      }
      folders1 := fs.folders;
      backedUpMetadata := ok;
      undoFaults := undoFaults + undoFaults1;
      undoFailed := undoFailed || (!ok && undoFaults1 > 0);
      failure := if ok then None else Some(MetadataBackup);
    }

    method StepProfiles() returns (failure: Option<Exit>)
      requires Fits() && !backedUpProfiles && folders1 == fs.folders
      requires !undoFailed ==> FoldersMatch()
      requires undoFaults == 0 ==> !undoFailed
      modifies this`backedUpProfiles, this`undoFailed, this`undoFaults, fs`folders, fs`faults
      ensures !undoFailed ==> FoldersMatch()
      ensures failure == if backedUpProfiles then None else Some(ProfilesBackup)
      ensures fs.faults >= old(fs.faults)
      ensures fs.faults == old(fs.faults) ==> (failure.None? <==> !AnyBackup(old(fs.folders), profiles))
      ensures undoFaults >= old(undoFaults) && (undoFaults == 0 ==> !undoFailed)
    {
      hide FolderSteps, AllPlaces, Places, SwitchedAt, AllSwitched, OnlyAt, SameContents, Settled, Separate, TypeOf;
      ghost var before := fs.folders;
      var ok, undoFaults1, _ := RunProfileMethod(fs, profiles, ToServer, true);
      if !undoFailed && (ok || undoFaults1 == 0) {
        ProfilesStep(folders0, before, fs.folders, metadataPath, profiles, backedUpMetadata, ok);
      }
      backedUpProfiles := ok;
      undoFaults := undoFaults + undoFaults1;
      undoFailed := undoFailed || (!ok && undoFaults1 > 0);
      failure := if ok then None else Some(ProfilesBackup);
    }

    method StepGameCert(raw: string, gamePathSet: bool) returns (failure: Option<Exit>)
      requires !addedGameCert && !backupReplaced && (!undoFailed ==> fs.files == files0)
      requires undoFaults == 0 ==> !undoFailed
      modifies this`addedGameCert, this`backupReplaced, this`undoFailed, this`undoFaults, fs`files, fs`faults
      ensures !undoFailed ==> FilesMatch()
      ensures failure.None? ==> addedGameCert && (!undoFailed ==> CertAdded(raw))
      ensures addedGameCert ==> failure.None? || failure == Some(GameCertAdd)
      ensures !addedGameCert ==>
        failure == Some(GamePathMissing) || failure == Some(GameCertAddParse) || failure == Some(GameCertBackup)
      ensures failure == Some(GamePathMissing) <==> !gamePathSet
      ensures failure == Some(GameCertAddParse) <==> gamePathSet && !crypto.parses(raw)
      ensures fs.faults >= old(fs.faults)
      ensures fs.faults == old(fs.faults) && gamePathSet && crypto.parses(raw) ==>
        failure == if ca.originalPath in old(fs.files) then None else Some(GameCertBackup)
      ensures undoFaults >= old(undoFaults) && (undoFaults == 0 ==> !undoFailed) && (old(undoFailed) ==> undoFailed)
    {
      if !gamePathSet {
        return Some(GamePathMissing);
      }
      if !crypto.parses(raw) {
        return Some(GameCertAddParse);
      }
      ghost var before := fs.files;
      var ok, undoFaults1 := ca.Backup(fs);
      undoFaults := undoFaults + undoFaults1;
      undoFailed := undoFailed || (!ok && undoFaults1 > 0);
      if !ok {
        backupReplaced := fs.files != before;
        return Some(GameCertBackup);
      }
      addedGameCert := true;
      ghost var base := fs.files;
      ok := ca.Append(fs, [raw]);
      assert ok ==> [raw][..1] == [raw] && ca.AppendedPart(base, fs.files, [raw]);
      CaStepDone(crypto, ca, before, base, fs.files, raw);
      failure := if ok then None else Some(GameCertAdd);
    }

    /** Every step asked for is done, and no other. */
    ghost predicate SetUpAs(v: SetupValues)
      reads this, fs
    {
      && addedUserCert == v.addUserCert.Some? && (addedUserCert ==> userCerts == userCerts0 + {v.addUserCert.value})
      && backedUpMetadata == v.metadata && backedUpProfiles == v.profiles
      && addedGameCert == v.addCaCert.Some? && (addedGameCert && !undoFailed ==> CertAdded(v.addCaCert.value))
    }

    lemma NothingDone()
      requires Fresh()
      ensures UserCertsMatch(None) && FoldersMatch() && FilesMatch()
      ensures userCerts == userCerts0 && folders0 == folders1 == fs.folders && fs.files == files0
      ensures !addedUserCert && !backedUpMetadata && !backedUpProfiles && !addedGameCert
      ensures !undoFailed && undoFaults == 0 && !certAddedAnyway && !backupReplaced
    {
      NothingMoved();
      hide FoldersMatch;
    }

    lemma NothingMoved()
      requires !backedUpMetadata && !backedUpProfiles && folders0 == folders1 == fs.folders
      ensures FoldersMatch()
    {
      NoFolderSteps(fs.folders, metadataPath, profiles);
      hide FolderSteps;
    }

    lemma MetadataApart()
      requires Fits()
      ensures AllPlaces(profiles) !! Places(metadataPath)
    {
    }

    /** The two steps that isolate folders. */
    method RunFolderSteps(metadata: bool, withProfiles: bool) returns (failure: Option<Exit>)
      requires Fits() && !backedUpMetadata && !backedUpProfiles && folders0 == folders1 == fs.folders
      requires undoFaults == 0 ==> !undoFailed
      modifies this`backedUpMetadata, this`backedUpProfiles, this`folders1, this`undoFailed, this`undoFaults,
        fs`folders, fs`faults
      ensures !undoFailed ==> FoldersMatch()
      ensures failure.None? ==> backedUpMetadata == metadata && backedUpProfiles == withProfiles
      ensures failure.None? || (failure == Some(MetadataBackup) && metadata) || (failure == Some(ProfilesBackup) && withProfiles)
      ensures fs.faults >= old(fs.faults)
      ensures fs.faults == old(fs.faults) ==>
        failure == (if metadata && ToServer.Aside(metadataPath) in folders0 then Some(MetadataBackup)
                    else if withProfiles && AnyBackup(folders0, profiles) then Some(ProfilesBackup)
                    else None)
      ensures undoFaults >= old(undoFaults) && (undoFaults == 0 ==> !undoFailed)
    {
      hide *;
      failure := None;
      NothingMoved();
      if metadata {
        failure := StepMetadata();
      }
      MetadataApart();
      if metadata {
        BackupsStay(folders0, fs.folders, metadataPath, profiles);
      }
      if failure.None? && withProfiles {
        failure := StepProfiles();
      }
    }

    /** The first of the folder and file steps that has no fault to blame but cannot be done. */
    ghost function FileRefusal(v: SetupValues): Option<Exit>
      reads this`folders0, this`files0
    {
      if v.metadata && ToServer.Aside(metadataPath) in folders0 then Some(MetadataBackup)
      else if v.profiles && AnyBackup(folders0, profiles) then Some(ProfilesBackup)
      else if v.addCaCert.Some? && !v.gamePathSet then Some(GamePathMissing)
      else if v.addCaCert.Some? && !crypto.parses(v.addCaCert.value) then Some(GameCertAddParse)
      else if v.addCaCert.Some? && ca.originalPath !in files0 then Some(GameCertBackup)
      else None
    }

    /** What a failure of those steps says of the inputs, whatever else failed. */
    predicate FileCause(v: SetupValues, failure: Option<Exit>) {
      match failure
      case None => v.addCaCert.Some? ==> v.gamePathSet && crypto.parses(v.addCaCert.value)
      case Some(exit) =>
        match exit
        case MetadataBackup => v.metadata
        case ProfilesBackup => v.profiles
        case GamePathMissing => v.addCaCert.Some? && !v.gamePathSet
        case GameCertAddParse => v.addCaCert.Some? && v.gamePathSet && !crypto.parses(v.addCaCert.value)
        case GameCertBackup => v.addCaCert.Some? && v.gamePathSet && crypto.parses(v.addCaCert.value)
        case GameCertAdd => v.addCaCert.Some? && v.gamePathSet && crypto.parses(v.addCaCert.value)
        case _ => false
    }

    /** The steps on folders and files. */
    method RunFileSteps(v: SetupValues) returns (failure: Option<Exit>)
      requires Fits() && !backedUpMetadata && !backedUpProfiles && folders0 == folders1 == fs.folders
      requires !addedGameCert && !backupReplaced && FilesMatch() && fs.files == files0
      requires undoFaults == 0 && !undoFailed
      modifies this`backedUpMetadata, this`backedUpProfiles, this`addedGameCert, this`folders1, this`backupReplaced,
        this`undoFailed, this`undoFaults, fs
      ensures !undoFailed ==> FoldersMatch() && FilesMatch()
      ensures undoFaults == 0 ==> !undoFailed
      ensures addedGameCert || backupReplaced ==> v.addCaCert.Some?
      ensures failure.None? ==>
        && backedUpMetadata == v.metadata && backedUpProfiles == v.profiles
        && addedGameCert == v.addCaCert.Some? && (addedGameCert && !undoFailed ==> CertAdded(v.addCaCert.value))
      ensures fs.faults >= old(fs.faults) && FileCause(v, failure)
      ensures fs.faults == old(fs.faults) ==> failure == FileRefusal(v)
    {
      hide FoldersMatch, FilesMatch, CertAdded, AnyBackup, Fits, Places, AllPlaces, Direction.Aside;
      failure := RunFolderSteps(v.metadata, v.profiles);
      if failure.None? && v.addCaCert.Some? {
        failure := StepGameCert(v.addCaCert.value, v.gamePathSet);
      }
    }

    /** The same, with the certificate of the user's store first. */
    ghost function StepRefusal(v: SetupValues, w: World): Option<Exit>
      reads this`folders0, this`files0
    {
      if v.addUserCert.Some? && !crypto.parses(v.addUserCert.value.raw) then Some(UserCertAddParse)
      else if v.addUserCert.Some? && w.userCertAddition != Added then Some(UserCertAdd)
      else FileRefusal(v)
    }

    predicate StepCause(v: SetupValues, w: World, failure: Option<Exit>) {
      if v.addUserCert.Some? && !crypto.parses(v.addUserCert.value.raw) then failure == Some(UserCertAddParse)
      else if v.addUserCert.Some? && w.userCertAddition != Added then failure == Some(UserCertAdd)
      else FileCause(v, failure)
    }

    lemma StepCauses(v: SetupValues, w: World, failure: Option<Exit>)
      requires StepCause(v, w, failure)
      ensures failure == Some(UserCertAddParse) <==> v.addUserCert.Some? && !crypto.parses(v.addUserCert.value.raw)
      ensures failure == Some(GamePathMissing) ==> v.addCaCert.Some? && !v.gamePathSet
      ensures failure == Some(GameCertAddParse) ==>
        v.addCaCert.Some? && v.gamePathSet && !crypto.parses(v.addCaCert.value)
      ensures failure.Some? ==>
        && failure.value != Success && failure.value != InvalidGame && failure.value != InvalidDataPath
        && failure.value != MissingLocalCertData && failure.value != HostsAdd && failure.value != AdminSetup
      ensures (failure == Some(MetadataBackup) ==> v.metadata) && (failure == Some(ProfilesBackup) ==> v.profiles)
      ensures failure == Some(GameCertBackup) || failure == Some(GameCertAdd) ==> v.addCaCert.Some?
      ensures failure == Some(UserCertAdd) ==> v.addUserCert.Some? && w.userCertAddition != Added
      ensures failure.None? ==>
        && (v.addUserCert.Some? ==> crypto.parses(v.addUserCert.value.raw) && w.userCertAddition == Added)
        && (v.addCaCert.Some? ==> v.gamePathSet && crypto.parses(v.addCaCert.value))
    {
    }

    /** The steps up to the hosts and certificate files; the first failure stops them. */
    method RunSteps(v: SetupValues, w: World) returns (failure: Option<Exit>)
      requires Fits() && Fresh()
      modifies this`userCerts, this`addedUserCert, this`certAddedAnyway, this`backedUpMetadata, this`backedUpProfiles,
        this`addedGameCert, this`folders1, this`backupReplaced, this`undoFailed, this`undoFaults, fs
      ensures FlagsMatch(v.addUserCert)
      ensures Asked(v) && (certAddedAnyway ==> w.userCertAddition == AddedAnyway)
      ensures failure.None? ==> SetUpAs(v)
      ensures fs.faults >= old(fs.faults)
      ensures StepCause(v, w, failure) && (fs.faults == old(fs.faults) ==> failure == StepRefusal(v, w))
    {
      hide AnyBackup, Places, AllPlaces, Direction.Aside, FoldersMatch, FilesMatch, CertAdded, Fits, Fresh, UserCertsMatch,
        FlagsMatch, SetUpAs, Asked, FileCause, FileRefusal;
      NothingDone();
      failure := None;
      if v.addUserCert.Some? {
        failure := StepUserCert(v.addUserCert.value, w);
      }
      if failure.None? {
        failure := RunFileSteps(v);
      }
      StepsDone(v, failure);
    }

    lemma StepsDone(v: SetupValues, failure: Option<Exit>)
      requires UserCertsMatch(v.addUserCert) && (undoFaults == 0 ==> !undoFailed)
      requires !undoFailed ==> FoldersMatch() && FilesMatch()
      requires addedUserCert || certAddedAnyway ==> v.addUserCert.Some?
      requires addedGameCert || backupReplaced ==> v.addCaCert.Some?
      requires failure.None? ==>
        && addedUserCert == v.addUserCert.Some? && (addedUserCert ==> userCerts == userCerts0 + {v.addUserCert.value})
        && backedUpMetadata == v.metadata && backedUpProfiles == v.profiles
        && addedGameCert == v.addCaCert.Some? && (addedGameCert && !undoFailed ==> CertAdded(v.addCaCert.value))
      ensures FlagsMatch(v.addUserCert) && Asked(v) && (failure.None? ==> SetUpAs(v))
    {
      hide UserCertsMatch, FoldersMatch, FilesMatch, CertAdded;
    }

    /** Only steps that were asked for have been done. */
    ghost predicate Asked(v: SetupValues)
      reads this`addedUserCert, this`certAddedAnyway, this`addedGameCert, this`backupReplaced
    {
      && (addedUserCert || certAddedAnyway ==> v.addUserCert.Some?)
      && (addedGameCert || backupReplaced ==> v.addCaCert.Some?)
    }

    /** The exits at which runSetUp has undone its steps. */
    ghost predicate Undone(exit: Exit, w: World) {
      exit != Success && (exit == AdminSetup ==> w.agentConnected)
    }

    /** Inputs that can always be undone: an own certificate, with no earlier one; no earlier backup; a readable CA file. */
    ghost predicate Sound(v: SetupValues, w: World)
      reads this`userCerts0, this`files0
    {
      && (v.addUserCert.Some? ==> v.addUserCert.value.own && OwnCerts(userCerts0) == {} && w.userCertAddition != AddedAnyway)
      && (v.addCaCert.Some? ==> CaFree(ca, files0) && CaReadable(crypto, ca, files0))
    }

    lemma SoundIsReversible(v: SetupValues, w: World)
      requires Sound(v, w) && Asked(v) && (certAddedAnyway ==> w.userCertAddition == AddedAnyway)
      ensures Reversible(v.addUserCert) && UndoWorks(v.addUserCert)
    {
      if v.addUserCert.Some? {
        assert v.addUserCert.value in OwnCerts(userCerts0 + {v.addUserCert.value});
      }
    }

    /** What stands in the way of the steps and of what follows them. */
    ghost function LaterRefusal(v: SetupValues, w: World): Exit
      reads this`folders0, this`files0
    {
      if StepRefusal(v, w).Some? then StepRefusal(v, w).value
      else if v.hostFileSet && v.mapIps && !w.hostFileAdded then HostsAdd
      else if v.certFileSet && !w.certFileSaved then UserCertAdd
      else if ((v.localCertGiven && !v.certFileSet) || (v.mapIps && !v.hostFileSet)) && !w.adminSucceeds then AdminSetup
      else Success
    }

    /** What an exit of those parts says of the inputs, whatever else failed. */
    predicate LaterCause(v: SetupValues, w: World, exit: Exit) {
      && exit != InvalidGame && exit != InvalidDataPath && exit != MissingLocalCertData
      && (exit == UserCertAddParse <==> v.addUserCert.Some? && !crypto.parses(v.addUserCert.value.raw))
      && (exit == GamePathMissing ==> v.addCaCert.Some? && !v.gamePathSet)
      && (exit == GameCertAddParse ==> v.addCaCert.Some? && v.gamePathSet && !crypto.parses(v.addCaCert.value))
      && (exit == HostsAdd ==> v.hostFileSet && v.mapIps && !w.hostFileAdded)
      && (exit == AdminSetup ==>
          !w.adminSucceeds && ((v.localCertGiven && !v.certFileSet) || (v.mapIps && !v.hostFileSet)))
      && (exit == MetadataBackup ==> v.metadata) && (exit == ProfilesBackup ==> v.profiles)
      && (exit == GameCertBackup || exit == GameCertAdd ==> v.addCaCert.Some?)
      && (exit == UserCertAdd ==>
          (v.addUserCert.Some? && w.userCertAddition != Added) || (v.certFileSet && !w.certFileSaved))
      && (exit == Success ==> NothingRefused(v, w))
    }

    /** Nothing that the inputs decide stands in the way. */
    predicate NothingRefused(v: SetupValues, w: World) {
      && (v.addUserCert.Some? ==> crypto.parses(v.addUserCert.value.raw) && w.userCertAddition == Added)
      && (v.addCaCert.Some? ==> v.gamePathSet && crypto.parses(v.addCaCert.value))
      && (v.hostFileSet && v.mapIps ==> w.hostFileAdded) && (v.certFileSet ==> w.certFileSaved)
      && ((v.localCertGiven && !v.certFileSet) || (v.mapIps && !v.hostFileSet) ==> w.adminSucceeds)
    }

    /** runSetUp behind the checks of its flags. */
    method RunChecked(v: SetupValues, w: World) returns (exit: Exit)
      requires Fits() && Fresh()
      modifies this`userCerts, this`addedUserCert, this`certAddedAnyway, this`backedUpMetadata, this`backedUpProfiles,
        this`addedGameCert, this`folders1, this`backupReplaced, this`undoFailed, this`undoFaults, fs
      ensures Undone(exit, w) && !undoFailed ==> (Unchanged() <==> Reversible(v.addUserCert))
      ensures Undone(exit, w) && undoFaults == 0 && Sound(v, w) ==> !undoFailed && Unchanged()
      ensures !Undone(exit, w) ==> SetUpAs(v) && FlagsMatch(v.addUserCert)
      ensures LaterCause(v, w, exit) && fs.faults >= old(fs.faults)
      ensures fs.faults == old(fs.faults) ==> exit == LaterRefusal(v, w)
    {
      hide Unchanged, Reversible, Sound, SetUpAs, FlagsMatch, Fresh, Fits, Asked, StepCause, StepRefusal;
      var failure := RunSteps(v, w);
      StepCauses(v, w, failure);
      if failure.None? && v.hostFileSet && v.mapIps && !w.hostFileAdded {
        failure := Some(HostsAdd);
      }
      if failure.None? && v.certFileSet && !w.certFileSaved {
        failure := Some(UserCertAdd);
      }
      if failure.Some? {
        UndoRun(v, w);
        return failure.value;
      }
      if (v.localCertGiven && !v.certFileSet) || (v.mapIps && !v.hostFileSet) {
        if !w.adminSucceeds {
          if w.agentConnected {
            UndoRun(v, w);
          }
          return AdminSetup;
        }
      }
      exit := Success;
    }

    /** undoSetUp, for the values the run was started with. */
    method UndoRun(ghost v: SetupValues, ghost w: World)
      requires Fits() && FlagsMatch(v.addUserCert) && Asked(v) && (certAddedAnyway ==> w.userCertAddition == AddedAnyway)
      modifies this`userCerts, this`undoFailed, this`undoFaults, fs
      ensures fs.faults >= old(fs.faults)
      ensures !undoFailed ==> (Unchanged() <==> Reversible(v.addUserCert))
      ensures undoFaults == 0 && Sound(v, w) ==> !undoFailed && Unchanged()
    {
      hide *;
      UndoSetUp(v.addUserCert);
      if Sound(v, w) {
        SoundIsReversible(v, w);
      }
    }

    /** What stands in the way of a run without faults, in the order it is met; Success when nothing does. */
    ghost function Refusal(values: SetupValues, game: Game, w: World): Exit
      reads this`folders0, this`files0
    {
      var v := values.(metadata := values.metadata && game != AoE1,
                       addCaCert := if game == AoE1 || game == AoE4 then None else values.addCaCert);
      if (v.metadata || v.profiles) && !w.gameSupported then InvalidGame
      else if (v.metadata || v.profiles) && !w.dataPathValid then InvalidDataPath
      else if v.certFileSet && !v.localCertGiven then MissingLocalCertData
      else LaterRefusal(v, w)
    }

    lemma RefusalOf(values: SetupValues, game: Game, w: World)
      ensures var folders := (values.metadata && game != AoE1) || values.profiles;
        Refusal(values, game, w) ==
          if folders && !w.gameSupported then InvalidGame
          else if folders && !w.dataPathValid then InvalidDataPath
          else if values.certFileSet && !values.localCertGiven then MissingLocalCertData
          else LaterRefusal(Effective(values, game), w)
    {
      hide LaterRefusal;
    }

    /**
     * Without a fault a run succeeds exactly when the game and its data path are in order, if
     * folders are to be moved, the certificates parse and are accepted, nothing is in the way of
     * the folders, the CA file and its path are there, and what is left to others works; for AoE1
     * metadata, and for AoE1 and AoE4 the CA file, are not asked for.
     */
    lemma SucceedsExactly(values: SetupValues, game: Game, w: World)
      ensures var metadata, caCert := values.metadata && game != AoE1, values.addCaCert.Some? && game == OtherGame;
        Refusal(values, game, w) == Success <==>
          && (metadata || values.profiles ==> w.gameSupported && w.dataPathValid)
          && (values.certFileSet ==> values.localCertGiven && w.certFileSaved)
          && (values.addUserCert.Some? ==> crypto.parses(values.addUserCert.value.raw) && w.userCertAddition == Added)
          && (metadata ==> ToServer.Aside(metadataPath) !in folders0)
          && (values.profiles ==> forall i :: 0 <= i < |profiles| ==> ToServer.Aside(profiles[i]) !in folders0)
          && (caCert ==> values.gamePathSet && crypto.parses(values.addCaCert.value) && ca.originalPath in files0)
          && (values.hostFileSet && values.mapIps ==> w.hostFileAdded)
          && ((values.localCertGiven && !values.certFileSet) || (values.mapIps && !values.hostFileSet) ==> w.adminSucceeds)
    {
      hide Direction.Aside;
    }

    /** A backup path that is taken, or a CA file that is not there, is reported as that step's own exit. */
    lemma StateRefusals(values: SetupValues, game: Game, w: World)
      ensures var metadata, caCert := values.metadata && game != AoE1, values.addCaCert.Some? && game == OtherGame;
        && (Refusal(values, game, w) == MetadataBackup ==> metadata && ToServer.Aside(metadataPath) in folders0)
        && (Refusal(values, game, w) == ProfilesBackup ==>
            values.profiles && exists i :: 0 <= i < |profiles| && ToServer.Aside(profiles[i]) in folders0)
        && (Refusal(values, game, w) == GameCertBackup ==> caCert && ca.originalPath !in files0)
        && Refusal(values, game, w) != GameCertAdd
    {
      hide Direction.Aside;
    }

    /**
     * runSetUp. At every failing exit, except a failed admin step without the agent, and
     * unless an undo operation has failed, the user store, the folders and the CA file are
     * as at entry exactly when what was done is reversible; for sound inputs they always
     * are when nothing fails while undoing. Success, and that one failure, leave them as
     * set up.
     */
    method RunSetUp(values: SetupValues, game: Game, w: World) returns (exit: Exit)
      requires Fits() && Fresh()
      modifies this`userCerts, this`addedUserCert, this`certAddedAnyway, this`backedUpMetadata, this`backedUpProfiles,
        this`addedGameCert, this`folders1, this`backupReplaced, this`undoFailed, this`undoFaults, fs
      ensures Undone(exit, w) && !undoFailed ==>
        (Unchanged() <==> Reversible(Effective(values, game).addUserCert))
      ensures Undone(exit, w) && undoFaults == 0 && Sound(Effective(values, game), w) ==> !undoFailed && Unchanged()
      ensures !Undone(exit, w) ==>
        SetUpAs(Effective(values, game)) && FlagsMatch(Effective(values, game).addUserCert)
      // the exits that the inputs decide, whatever fails
      ensures var folders := (values.metadata && game != AoE1) || values.profiles;
        var refused := folders && (!w.gameSupported || !w.dataPathValid);
        var noLocal := values.certFileSet && !values.localCertGiven;
        && (exit == InvalidGame <==> folders && !w.gameSupported)
        && (exit == InvalidDataPath <==> folders && w.gameSupported && !w.dataPathValid)
        && (exit == MissingLocalCertData <==> !refused && noLocal)
        && (exit == UserCertAddParse <==>
            !refused && !noLocal && values.addUserCert.Some? && !crypto.parses(values.addUserCert.value.raw))
      ensures exit == InvalidGame || exit == InvalidDataPath || exit == MissingLocalCertData
        || LaterCause(Effective(values, game), w, exit)
      // without a fault the inputs and the state at entry decide them all
      ensures fs.faults >= old(fs.faults)
      ensures fs.faults == old(fs.faults) ==> exit == Refusal(values, game, w)
    {
      NothingYetUndone(Effective(values, game).addUserCert);
      hide Unchanged, Reversible, Sound, SetUpAs, FlagsMatch, Fresh, Fits, LaterRefusal, Effective, Refusal;
      var v := Effective(values, game);
      EffectiveExactly(values, game);
      RefusalOf(values, game, w);
      if v.metadata || v.profiles {
        if !w.gameSupported {
          return InvalidGame;
        }
        if !w.dataPathValid {
          return InvalidDataPath;
        }
      }
      if v.certFileSet && !v.localCertGiven {
        return MissingLocalCertData;
      }
      exit := RunChecked(v, w);
    }

    lemma NothingYetUndone(crt: Option<UserCert>)
      requires Fresh()
      ensures Unchanged() && Reversible(crt) && !undoFailed
    {
      SameSelf(fs.folders);
    }
  }
}
