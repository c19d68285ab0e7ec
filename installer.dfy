/** The per-entry install pipeline and update planning
    (internal/installer/installer.go). The registry's answers, the digest of
    the downloaded bytes and the backup timestamp are inputs. */
module Installer {
  import opened Results
  import opened Strings
  import opened Seqs
  import opened Disk
  import opened Checksums
  import opened ManifestTypes
  import opened ModrinthVersions
  import opened Manifests

  // ---------------------------------------------------------------------------
  // Which entries `Install` schedules.

  /** The loop of `Install`: disabled entries are skipped, the rest started in
      order. */
  method StartEnabled(entries: seq<Entry>) returns (started: seq<Entry>)
    ensures started == Filter(entries, IsEnabled)
  {
    started := [];
    var i := 0;
    while i < |entries|
      invariant 0 <= i <= |entries|
      invariant started == Filter(entries[..i], IsEnabled)
    {
      FilterSnoc(entries[..i], entries[i], IsEnabled);
      assert entries[..i + 1] == entries[..i] + [entries[i]];
      if entries[i].enable {
        started := started + [entries[i]];
      }
      i := i + 1;
    }
    assert entries[..i] == entries;
  }

  /** `Install`'s work list: the enabled mods, then every resource pack and
      shader, of which only the enabled ones are started. */
  method InstallQueue(man: Manifest) returns (queue: seq<Entry>)
    ensures queue == Filter(EnabledEntries(man.mods) + man.resourcePacks + man.shaders, IsEnabled)
  {
    var nonmods := man.resourcePacks + man.shaders;
    var enabled := man.Enabled();
    assert enabled + nonmods == EnabledEntries(man.mods) + man.resourcePacks + man.shaders;
    queue := StartEnabled(enabled + nonmods);
  }

  /** Exactly the enabled entries of each section are installed, mods first,
      each section in its own order. */
  lemma {:induction false} InstallQueueExact(mods: seq<Entry>, resourcePacks: seq<Entry>, shaders: seq<Entry>)
    ensures Filter(EnabledEntries(mods) + resourcePacks + shaders, IsEnabled)
            == EnabledEntries(mods) + EnabledEntries(resourcePacks) + EnabledEntries(shaders)
  {
    FilterAppend(EnabledEntries(mods) + resourcePacks, shaders, IsEnabled);
    FilterAppend(EnabledEntries(mods), resourcePacks, IsEnabled);
    FilterIdempotent(mods, IsEnabled);
  }

  // ---------------------------------------------------------------------------
  // resolveVersion and fileForVersion.

  /** Among equal dates the first is kept. */
  lemma NewestStep(vs: seq<Version>, t: nat)
    requires 0 < t < |vs| && !Less(vs[0].datePublished, vs[t].datePublished)
    requires forall j :: 1 <= j < |vs| ==> !Less(vs[t].datePublished, vs[j].datePublished)
    ensures forall j :: 0 <= j < |vs| ==> !Less(vs[0].datePublished, vs[j].datePublished)
  {
    LessIrreflexive(vs[0].datePublished);
    forall j | 1 <= j < |vs|
      ensures !Less(vs[0].datePublished, vs[j].datePublished)
    {
      if Less(vs[0].datePublished, vs[j].datePublished) {
        if vs[j].datePublished != vs[t].datePublished {
          LessTotal(vs[j].datePublished, vs[t].datePublished);
          LessTransitive(vs[0].datePublished, vs[j].datePublished, vs[t].datePublished);
        }
      }
    }
  }

  /** The position of a version with the greatest publication date, the one a
      newest-first sort puts in front. */
  function Newest(vs: seq<Version>): (k: nat)
    requires |vs| > 0
    ensures k < |vs|
    ensures forall j :: 0 <= j < |vs| ==> !Less(vs[k].datePublished, vs[j].datePublished)
  {
    if |vs| == 1 then
      LessIrreflexive(vs[0].datePublished);
      0
    else
      var t := 1 + Newest(vs[1..]);
      assert forall j :: 1 <= j < |vs| ==> vs[j] == vs[1..][j - 1];
      if Less(vs[0].datePublished, vs[t].datePublished) then
        forall j | 0 <= j < |vs|
          ensures !Less(vs[t].datePublished, vs[j].datePublished)
        {
          if j == 0 {
            LessAsymmetric(vs[0].datePublished, vs[t].datePublished);
          }
        }
        t
      else
        NewestStep(vs, t);
        0
  }

  /** The version query `resolveVersion` sends for an entry's destination:
      mods are filtered by the manifest's loader, packs by no loader, and any
      other destination sends nothing. */
  function VersionQuery(mc: Minecraft, e: Entry): (q: Option<Query>)
    ensures q.Some? <==> e.dest in {"mods", "resourcepacks", "shaderpacks"}
    ensures q.Some? ==> q.value.slug == e.slug && q.value.gameVersion == mc.version
    ensures q.Some? ==> (q.value.loader == if e.dest == "mods" then mc.loader else "")
  {
    match e.dest
    case "mods" => Some(Query(e.slug, mc.version, mc.loader))
    case "resourcepacks" => Some(Query(e.slug, mc.version, ""))
    case "shaderpacks" => Some(Query(e.slug, mc.version, ""))
    case _ => None
  }

  /** `resolveVersion`: the id of the newest compatible version. There is no
      unfiltered retry. */
  function ResolveVersion(reg: Registry, mc: Minecraft, e: Entry): (r: Result<string>)
    ensures VersionQuery(mc, e).None? ==> r == Err(UnknownDest(e.dest, e.slug))
    ensures VersionQuery(mc, e).Some? ==>
              var answer := reg.projectVersions(VersionQuery(mc, e).value);
              (answer.Err? ==> r == Err(answer.error))
              && (answer == Ok([]) ==> r == Err(NoCompatibleVersions(e.slug)))
              && (answer.Ok? && answer.value != [] ==>
                    r.Ok? && r.value == answer.value[Newest(answer.value)].id)
  {
    match VersionQuery(mc, e)
    case None => Err(UnknownDest(e.dest, e.slug))
    case Some(q) =>
      match reg.projectVersions(q)
      case Err(cause) => Err(cause)
      case Ok(vs) =>
        if |vs| == 0 then Err(NoCompatibleVersions(e.slug)) else Ok(vs[Newest(vs)].id)
  }

  /** A resolved id belongs to a version of the filtered answer that no other
      version of it postdates. */
  lemma ResolvedIsNewest(reg: Registry, mc: Minecraft, e: Entry)
    requires ResolveVersion(reg, mc, e).Ok?
    ensures VersionQuery(mc, e).Some? && reg.projectVersions(VersionQuery(mc, e).value).Ok?
    ensures var vs := reg.projectVersions(VersionQuery(mc, e).value).value;
            exists k :: 0 <= k < |vs| && vs[k].id == ResolveVersion(reg, mc, e).value
                        && forall j :: 0 <= j < |vs| ==> !Less(vs[k].datePublished, vs[j].datePublished)
  {
    var vs := reg.projectVersions(VersionQuery(mc, e).value).value;
    var k := Newest(vs);
    assert vs[k].id == ResolveVersion(reg, mc, e).value;
  }

  /** The file `fileForVersion` picks: the first primary file, else the first
      file. */
  function PrimaryFile(files: seq<File>): (k: nat)
    requires |files| > 0
    ensures k < |files|
    ensures files[k].primary || (k == 0 && forall j :: 0 <= j < |files| ==> !files[j].primary)
    ensures forall j :: 0 <= j < k ==> !files[j].primary
  {
    if files[0].primary || |files| == 1 then 0
    else
      var t := PrimaryFile(files[1..]);
      if files[1..][t].primary then 1 + t else 0
  }

  /** `fileForVersion(verID)`: the registry's error, or the chosen file (whose
      SHA-1 travels with it). A version without files makes the source index
      past the end; here it is an error. */
  function FileForVersion(reg: Registry, verID: string): (r: Result<File>)
    ensures reg.version(verID).Err? ==> r == Err(reg.version(verID).error)
    ensures reg.version(verID).Ok? && reg.version(verID).value.files == [] ==> r == Err(NoFiles(verID))
    ensures r.Ok? ==> reg.version(verID).Ok? && r.value in reg.version(verID).value.files
    ensures reg.version(verID).Ok? && reg.version(verID).value.files != [] ==>
              var files := reg.version(verID).value.files;
              r == Ok(files[PrimaryFile(files)])
    ensures r.Ok? && (exists j :: 0 <= j < |reg.version(verID).value.files| && reg.version(verID).value.files[j].primary) ==>
              r.value.primary
  {
    match reg.version(verID)
    case Err(cause) => Err(cause)
    case Ok(v) =>
      if |v.files| == 0 then Err(NoFiles(verID)) else Ok(v.files[PrimaryFile(v.files)])
  }

  // ---------------------------------------------------------------------------
  // download and backupIfExists.

  /** The hash check in `download`: `fetched` is the transfer's outcome, the
      SHA-1 of the received bytes or the client's error. The answer is the
      digest of the temporary file, which then equals the wanted one. */
  function Download(fetched: Result<string>, url: string, want: string): (r: Result<string>)
    ensures r.Ok? <==> fetched == Ok(want)
    ensures r.Ok? ==> r.value == want
    ensures fetched.Ok? && fetched.value != want ==> r == Err(Sha1Mismatch(url, want, fetched.value))
    ensures fetched.Err? ==> r == fetched
  {
    match fetched
    case Err(cause) => Err(cause)
    case Ok(got) => if got != want then Err(Sha1Mismatch(url, want, got)) else Ok(got)
  }

  /** The name an existing file is moved to: `<name>.<timestamp>.bak`. */
  function BackupName(name: string, stamp: string): (b: string)
    ensures b != name && HasPrefix(b, name)
  {
    assert (name + "." + stamp + ".bak")[..|name|] == name;
    name + "." + stamp + ".bak"
  }

  /** Why `backupIfExists(dir/name)` fails: only the rename of an existing
      entry can. */
  function BackupError(fs: FileSystem, dir: string, name: string, stamp: string): Option<Error> {
    if Stat(fs, dir, name).None? then None else RenameError(fs, dir, name, BackupName(name, stamp))
  }

  function BackedUp(fs: FileSystem, dir: string, name: string, stamp: string): (r: FileSystem)
    requires WellFormed(fs) && BackupError(fs, dir, name, stamp).None?
    ensures WellFormed(r)
  {
    if Stat(fs, dir, name).None? then fs else Renamed(fs, dir, name, BackupName(name, stamp))
  }

  /** `backupIfExists(dir/name)` with the clock reading `stamp`. */
  method BackupIfExists(disk: Disk, dir: string, name: string, stamp: string) returns (r: Result<()>)
    requires disk.Valid()
    modifies disk
    ensures disk.Valid()
    ensures r.Err? <==> BackupError(old(disk.fs), dir, name, stamp).Some?
    ensures r.Err? ==> r.error == BackupError(old(disk.fs), dir, name, stamp).value && disk.fs == old(disk.fs)
    ensures r.Ok? ==> disk.fs == BackedUp(old(disk.fs), dir, name, stamp)
  {
    if Stat(disk.fs, dir, name).Some? {
      r := disk.Rename(dir, name, BackupName(name, stamp));
    } else {
      r := Ok(());
    }
  }

  /** A backup frees the name and never deletes: what was there is now under
      the backup name, and every other name is as it was. */
  lemma BackupKeeps(fs: FileSystem, dir: string, name: string, stamp: string, x: string)
    requires WellFormed(fs) && BackupError(fs, dir, name, stamp).None?
    ensures var after := BackedUp(fs, dir, name, stamp);
            var bak := BackupName(name, stamp);
            Stat(after, dir, name).None?
            && (Stat(fs, dir, name).Some? ==> Stat(after, dir, bak) == Stat(fs, dir, name))
            && (x != name && x != bak ==> Stat(after, dir, x) == Stat(fs, dir, x))
  {
    if Stat(fs, dir, name).Some? {
      var bak := BackupName(name, stamp);
      RenamedStat(fs, dir, name, bak, name);
      RenamedStat(fs, dir, name, bak, bak);
      RenamedStat(fs, dir, name, bak, x);
    }
  }

  /** The file system once a verified download of digest `digest` has been
      moved to `dir/name` behind a backup of whatever was there. */
  function Replaced(fs: FileSystem, dir: string, name: string, digest: string, stamp: string): (r: FileSystem)
    requires WellFormed(fs) && dir in fs && BackupError(fs, dir, name, stamp).None?
    ensures WellFormed(r)
  {
    BackupKeeps(fs, dir, name, stamp, name);
    Placed(BackedUp(fs, dir, name, stamp), dir, name, Regular(digest))
  }

  /** `backupIfExists` followed by the rename of the temporary file. */
  method Replace(disk: Disk, dir: string, name: string, digest: string, stamp: string) returns (r: Result<()>)
    requires disk.Valid() && dir in disk.fs
    modifies disk
    ensures disk.Valid()
    ensures r.Err? <==> BackupError(old(disk.fs), dir, name, stamp).Some?
    ensures r.Err? ==> r.error == BackupError(old(disk.fs), dir, name, stamp).value && disk.fs == old(disk.fs)
    ensures r.Ok? ==> disk.fs == Replaced(old(disk.fs), dir, name, digest, stamp)
  {
    r := BackupIfExists(disk, dir, name, stamp);
    if r.Ok? {
      BackupKeeps(old(disk.fs), dir, name, stamp, name);
      disk.MoveIn(dir, name, Regular(digest));
    }
  }

  // ---------------------------------------------------------------------------
  // installOne.

  /** The entry (a copy owned by the caller), the file system and the answer
      after `installOne`, and whether `Save` was called. */
  datatype Installed = Installed(entry: Entry, fs: FileSystem, result: Result<()>, saves: bool)

  /** `installOne` step by step: resolve, pick the file, create the
      destination directory (which fails when a file holds its path), stop
      if the file is already in place, download and verify, back up, move
      into place, record, save. `pathSet` says whether the manifest's `Save`
      can write. */
  function InstallOneSpec(fs: FileSystem, reg: Registry, mc: Minecraft, gameDir: string, e: Entry,
                          fetched: Result<string>, stamp: string, pathSet: bool): (s: Installed)
    requires WellFormed(fs)
    ensures WellFormed(s.fs)
    ensures s.entry.checksum == e.checksum && s.entry.slug == e.slug && s.entry.dest == e.dest
    ensures s.saves ==> s.result == (if pathSet then Ok(()) else Err(PathUnset))
    ensures !s.saves ==> s.entry == e
  {
    match ResolveVersion(reg, mc, e)
    case Err(cause) => Installed(e, fs, Err(cause), false)
    case Ok(verID) =>
      match FileForVersion(reg, verID)
      case Err(cause) => Installed(e, fs, Err(cause), false)
      case Ok(file) =>
        var destDir := PathJoin(gameDir, e.dest);
        match MkdirError(fs, destDir)
        case Some(cause) => Installed(e, fs, Err(cause), false)
        case None =>
          var fs1 := MadeDir(fs, destDir);
          if FileHasDigest(fs1, destDir, file.filename, file.sha1) == Ok(true) then
            Installed(e, fs1, Ok(()), false)
          else
            match Download(fetched, file.url, file.sha1)
            case Err(cause) => Installed(e, fs1, Err(cause), false)
            case Ok(_) =>
              match BackupError(fs1, destDir, file.filename, stamp)
              case Some(cause) => Installed(e, fs1, Err(cause), false)
              case None =>
                Installed(e.(filename := file.filename, version := verID),
                          Replaced(fs1, destDir, file.filename, file.sha1, stamp),
                          if pathSet then Ok(()) else Err(PathUnset), true)
  }

  /** `installOne(e)`: returns the updated copy of the entry. */
  method InstallOne(disk: Disk, man: Manifest, reg: Registry, gameDir: string, e: Entry,
                    fetched: Result<string>, stamp: string) returns (out: Entry, r: Result<()>)
    requires disk.Valid()
    modifies disk, man`saved
    ensures disk.Valid()
    ensures var s := InstallOneSpec(old(disk.fs), reg, man.minecraft, gameDir, e, fetched, stamp, man.path != "");
            out == s.entry && disk.fs == s.fs && r == s.result
            && man.saved == old(man.saved) + (if s.saves && man.path != "" then [man.Doc()] else [])
  {
    out := e;
    var verID := ResolveVersion(reg, man.minecraft, e);
    if verID.Err? {
      return out, Err(verID.error);
    }
    var file := FileForVersion(reg, verID.value);
    if file.Err? {
      return out, Err(file.error);
    }
    var f := file.value;
    var destDir := PathJoin(gameDir, e.dest);
    var made := disk.MkdirAll(destDir);
    if made.Err? {
      return out, made;
    }
    var ok := FileHasDigest(disk.fs, destDir, f.filename, f.sha1);
    if ok == Ok(true) {
      return out, Ok(());
    }
    var tmp := Download(fetched, f.url, f.sha1);
    if tmp.Err? {
      return out, Err(tmp.error);
    }
    var moved := Replace(disk, destDir, f.filename, f.sha1, stamp);
    if moved.Err? {
      return out, moved;
    }
    out := e.(filename := f.filename, version := verID.value);
    r := man.Save();
  }

  /** A file already in place with the advertised SHA-1 ends the call: no
      download, no backup, the entry untouched and no save; only the
      destination directory may have been created. */
  lemma InstallAlreadyCurrent(fs: FileSystem, reg: Registry, mc: Minecraft, gameDir: string, e: Entry,
                              fetched: Result<string>, stamp: string, pathSet: bool)
    requires WellFormed(fs) && ResolveVersion(reg, mc, e).Ok?
    requires FileForVersion(reg, ResolveVersion(reg, mc, e).value).Ok?
    requires var f := FileForVersion(reg, ResolveVersion(reg, mc, e).value).value;
             var destDir := PathJoin(gameDir, e.dest);
             FileHasDigest(MadeDir(fs, destDir), destDir, f.filename, f.sha1) == Ok(true)
    ensures InstallOneSpec(fs, reg, mc, gameDir, e, fetched, stamp, pathSet)
            == Installed(e, MadeDir(fs, PathJoin(gameDir, e.dest)), Ok(()), false)
  {
  }

  /** A download whose SHA-1 differs is refused before the backup and the
      rename: the destination listing is as `MkdirAll` left it. */
  lemma InstallHashMismatch(fs: FileSystem, reg: Registry, mc: Minecraft, gameDir: string, e: Entry,
                            got: string, stamp: string, pathSet: bool)
    requires WellFormed(fs) && ResolveVersion(reg, mc, e).Ok?
    requires FileForVersion(reg, ResolveVersion(reg, mc, e).value).Ok?
    requires var f := FileForVersion(reg, ResolveVersion(reg, mc, e).value).value;
             var destDir := PathJoin(gameDir, e.dest);
             FileHasDigest(MadeDir(fs, destDir), destDir, f.filename, f.sha1) != Ok(true) && got != f.sha1
    ensures var f := FileForVersion(reg, ResolveVersion(reg, mc, e).value).value;
            var destDir := PathJoin(gameDir, e.dest);
            InstallOneSpec(fs, reg, mc, gameDir, e, Ok(got), stamp, pathSet)
            == if MkdirError(fs, destDir).Some? then Installed(e, fs, Err(MkdirError(fs, destDir).value), false)
               else Installed(e, MadeDir(fs, destDir), Err(Sha1Mismatch(f.url, f.sha1, got)), false)
  {
  }

  /** When the destination path is taken by a file, `MkdirAll` fails and the
      call ends there: nothing changes on disk, the entry is untouched and
      nothing is saved. */
  lemma InstallMkdirFails(fs: FileSystem, reg: Registry, mc: Minecraft, gameDir: string, e: Entry,
                          fetched: Result<string>, stamp: string, pathSet: bool)
    requires WellFormed(fs) && ResolveVersion(reg, mc, e).Ok?
    requires FileForVersion(reg, ResolveVersion(reg, mc, e).value).Ok?
    requires MkdirError(fs, PathJoin(gameDir, e.dest)).Some?
    ensures InstallOneSpec(fs, reg, mc, gameDir, e, fetched, stamp, pathSet)
            == Installed(e, fs, Err(MkdirFailed(PathJoin(gameDir, e.dest))), false)
  {
  }

  /** After the file is placed: it sits under the advertised name with the
      advertised digest, whatever was there before survives under the backup
      name, no other name in the directory changed, and the entry records
      the file name and version id but keeps its checksum. */
  lemma InstallPlaces(fs: FileSystem, reg: Registry, mc: Minecraft, gameDir: string, e: Entry,
                      fetched: Result<string>, stamp: string, pathSet: bool, x: string)
    requires WellFormed(fs) && InstallOneSpec(fs, reg, mc, gameDir, e, fetched, stamp, pathSet).saves
    ensures ResolveVersion(reg, mc, e).Ok? && FileForVersion(reg, ResolveVersion(reg, mc, e).value).Ok?
    ensures MkdirError(fs, PathJoin(gameDir, e.dest)).None?
    ensures var verID := ResolveVersion(reg, mc, e).value;
            var f := FileForVersion(reg, verID).value;
            var destDir := PathJoin(gameDir, e.dest);
            var before := MadeDir(fs, destDir);
            var s := InstallOneSpec(fs, reg, mc, gameDir, e, fetched, stamp, pathSet);
            var bak := BackupName(f.filename, stamp);
            fetched == Ok(f.sha1)
            && Stat(s.fs, destDir, f.filename) == Some(Regular(f.sha1))
            && (Stat(before, destDir, f.filename).Some? ==> Stat(s.fs, destDir, bak) == Stat(before, destDir, f.filename))
            && (x != f.filename && x != bak ==> Stat(s.fs, destDir, x) == Stat(before, destDir, x))
            && s.entry == e.(filename := f.filename, version := verID)
  {
    InstallSaved(fs, reg, mc, gameDir, e, fetched, stamp, pathSet);
    var verID := ResolveVersion(reg, mc, e).value;
    var f := FileForVersion(reg, verID).value;
    var destDir := PathJoin(gameDir, e.dest);
    var before := MadeDir(fs, destDir);
    var bak := BackupName(f.filename, stamp);
    var mid := BackedUp(before, destDir, f.filename, stamp);
    BackupKeeps(before, destDir, f.filename, stamp, x);
    BackupKeeps(before, destDir, f.filename, stamp, bak);
    FindInsert(mid[destDir], DirEntry(f.filename, Regular(f.sha1)), f.filename);
    FindInsert(mid[destDir], DirEntry(f.filename, Regular(f.sha1)), x);
    FindInsert(mid[destDir], DirEntry(f.filename, Regular(f.sha1)), bak);
  }

  /** The path by which `installOne` reaches `Save`: every step before it
      succeeded, and the file system is the destination directory with the
      verified download moved in behind a backup. */
  lemma InstallSaved(fs: FileSystem, reg: Registry, mc: Minecraft, gameDir: string, e: Entry,
                     fetched: Result<string>, stamp: string, pathSet: bool)
    requires WellFormed(fs) && InstallOneSpec(fs, reg, mc, gameDir, e, fetched, stamp, pathSet).saves
    ensures ResolveVersion(reg, mc, e).Ok? && FileForVersion(reg, ResolveVersion(reg, mc, e).value).Ok?
    ensures var verID := ResolveVersion(reg, mc, e).value;
            var f := FileForVersion(reg, verID).value;
            var destDir := PathJoin(gameDir, e.dest);
            var before := MadeDir(fs, destDir);
            var s := InstallOneSpec(fs, reg, mc, gameDir, e, fetched, stamp, pathSet);
            MkdirError(fs, destDir).None? && fetched == Ok(f.sha1)
            && BackupError(before, destDir, f.filename, stamp).None?
            && s.fs == Replaced(before, destDir, f.filename, f.sha1, stamp)
            && s.entry == e.(filename := f.filename, version := verID)
  {
    assert ResolveVersion(reg, mc, e).Ok?;
    var f := FileForVersion(reg, ResolveVersion(reg, mc, e).value);
    assert f.Ok?;
    var destDir := PathJoin(gameDir, e.dest);
    assert MkdirError(fs, destDir).None?;
    var before := MadeDir(fs, destDir);
    assert FileHasDigest(before, destDir, f.value.filename, f.value.sha1) != Ok(true);
    assert Download(fetched, f.value.url, f.value.sha1).Ok?;
  }

  // ---------------------------------------------------------------------------
  // PlanUpdates.

  /** One planned update: the entry, its recorded version and the newest. */
  datatype Update = Update(entry: Entry, currentVersion: string, targetVersion: string)

  /** `resolveVersion` against one registry and manifest, as a value. */
  function Resolver(reg: Registry, mc: Minecraft): Entry -> Result<string> {
    e => ResolveVersion(reg, mc, e)
  }

  /** `PlanUpdates` over a list, in order: the first resolve error aborts
      with no records; otherwise one record per entry whose recorded version
      is not the newest. */
  function Plan(resolve: Entry -> Result<string>, entries: seq<Entry>): (r: Result<seq<Update>>)
    decreases |entries|
  {
    if |entries| == 0 then Ok([])
    else
      var last := entries[|entries| - 1];
      match Plan(resolve, entries[..|entries| - 1])
      case Err(cause) => Err(cause)
      case Ok(records) =>
        match resolve(last)
        case Err(cause) => Err(cause)
        case Ok(latest) =>
          Ok(records + if last.version != latest then [Update(last, last.version, latest)] else [])
  }

  /** A failure in a prefix is the failure of the whole plan. */
  lemma {:induction false} PlanPrefixErr(resolve: Entry -> Result<string>, entries: seq<Entry>, k: nat)
    requires k <= |entries| && Plan(resolve, entries[..k]).Err?
    ensures Plan(resolve, entries) == Plan(resolve, entries[..k])
    decreases |entries| - k
  {
    if k < |entries| {
      assert entries[..k + 1][..k] == entries[..k];
      PlanPrefixErr(resolve, entries, k + 1);
    } else {
      assert entries[..k] == entries;
    }
  }

  /** One more entry extends a successful plan by at most its own record. */
  lemma PlanStep(resolve: Entry -> Result<string>, entries: seq<Entry>, i: nat, records: seq<Update>)
    requires i < |entries| && Plan(resolve, entries[..i]) == Ok(records)
    ensures var e := entries[i];
            Plan(resolve, entries[..i + 1]) ==
              match resolve(e)
              case Err(cause) => Err(cause)
              case Ok(latest) => Ok(records + if e.version != latest then [Update(e, e.version, latest)] else [])
  {
    assert entries[..i + 1][..i] == entries[..i];
  }

  /** `PlanUpdates`: resolves each enabled mod in order. */
  method PlanUpdates(man: Manifest, reg: Registry) returns (r: Result<seq<Update>>)
    ensures r == Plan(Resolver(reg, man.minecraft), EnabledEntries(man.mods))
  {
    var resolve := Resolver(reg, man.minecraft);
    var enabled := man.Enabled();
    var out: seq<Update> := [];
    var i := 0;
    while i < |enabled|
      invariant 0 <= i <= |enabled|
      invariant Plan(resolve, enabled[..i]) == Ok(out)
    {
      PlanStep(resolve, enabled, i, out);
      var e := enabled[i];
      var latest := resolve(e);
      if latest.Err? {
        PlanPrefixErr(resolve, enabled, i + 1);
        return Err(latest.error);
      }
      if e.version != latest.value {
        out := out + [Update(e, e.version, latest.value)];
      } else {
        assert out + [] == out;
      }
      assert Plan(resolve, enabled[..i + 1]) == Ok(out);
      i := i + 1;
    }
    assert enabled[..i] == enabled;
    return Ok(out);
  }

  /** Every record names an entry of the list whose recorded version differs
      from the newest one, and every such entry has a record. */
  lemma {:induction false} PlanRecords(resolve: Entry -> Result<string>, entries: seq<Entry>)
    requires Plan(resolve, entries).Ok?
    ensures forall j :: 0 <= j < |entries| ==> resolve(entries[j]).Ok?
    ensures var records := Plan(resolve, entries).value;
            (forall u :: u in records ==>
               u.currentVersion != u.targetVersion
               && u.currentVersion == u.entry.version
               && u.entry in entries
               && resolve(u.entry) == Ok(u.targetVersion))
            && (forall j :: 0 <= j < |entries| && resolve(entries[j]).value != entries[j].version ==>
                  Update(entries[j], entries[j].version, resolve(entries[j]).value) in records)
    decreases |entries|
  {
    if |entries| > 0 {
      var n := |entries| - 1;
      PlanRecords(resolve, entries[..n]);
      assert forall j :: 0 <= j < n ==> entries[j] == entries[..n][j];
    }
  }
}
