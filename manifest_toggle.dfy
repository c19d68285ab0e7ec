/** The enable/disable rename state machine (`toggleDisabled`,
    internal/manifest/manifest.go:214-256). A disabled file carries the
    suffix ".disabled" next to its recorded name. */
module ManifestToggle {
  import opened Results
  import opened Disk
  import opened Checksums
  import opened ManifestTypes

  const DisabledSuffix: string := ".disabled"

  /** The rename a toggle performs on `name`: enabling drops the suffix,
      disabling adds it. */
  function Source(name: string, wantEnable: bool): string {
    if wantEnable then name + DisabledSuffix else name
  }

  function Target(name: string, wantEnable: bool): string {
    if wantEnable then name else name + DisabledSuffix
  }

  lemma SourceTargetDiffer(name: string, wantEnable: bool)
    ensures Source(name, wantEnable) != Target(name, wantEnable)
    ensures Source(name, !wantEnable) == Target(name, wantEnable)
  {
    assert |name + DisabledSuffix| != |name|;
  }

  /** The entries, the file system and the answer after a toggle. */
  datatype Toggled = Toggled(entries: seq<Entry>, fs: FileSystem, result: Result<()>)

  /** The file step of a toggle, once the file name is known: the source must
      exist, then it is renamed. */
  function ToggleFile(fs: FileSystem, dir: string, entries: seq<Entry>, slug: string, name: string, wantEnable: bool): (t: Toggled)
    requires WellFormed(fs)
    ensures WellFormed(t.fs) && t.entries == entries
    ensures t.result.Err? ==> t.fs == fs
  {
    var from := Source(name, wantEnable);
    var to := Target(name, wantEnable);
    if Stat(fs, dir, from).None? then Toggled(entries, fs, Err(FileNotFound(slug, PathJoin(dir, from))))
    else match RenameError(fs, dir, from, to)
         case Some(e) => Toggled(entries, fs, Err(ToggleFailed(slug, e)))
         case None => Toggled(entries, Renamed(fs, dir, from, to), Ok(()))
  }

  /** `toggleDisabled(gameDir, entries, slug, wantEnable)`. The first entry with
      the slug gets its flag set first; an empty file name is then resolved by
      checksum and written back; finally the file is renamed. */
  function Toggle(fs: FileSystem, gameDir: string, entries: seq<Entry>, slug: string, wantEnable: bool): (t: Toggled)
    requires WellFormed(fs)
    ensures WellFormed(t.fs) && |t.entries| == |entries|
    ensures SlugIndex(entries, slug).None? ==> t == Toggled(entries, fs, Err(NotInManifest(slug)))
    ensures SlugIndex(entries, slug).Some? ==>
              var i := SlugIndex(entries, slug).value;
              t.entries == entries[i := t.entries[i]]
              && t.entries[i] == entries[i].(enable := wantEnable, filename := t.entries[i].filename)
              && (entries[i].filename != "" ==> t.entries[i].filename == entries[i].filename)
    ensures t.result.Err? ==> t.fs == fs
  {
    match SlugIndex(entries, slug)
    case None => Toggled(entries, fs, Err(NotInManifest(slug)))
    case Some(i) =>
      var flagged := entries[i].(enable := wantEnable);
      var dir := PathJoin(gameDir, flagged.dest);
      if flagged.filename == "" then
        match FindByChecksum(fs, dir, flagged.checksum)
        case Err(cause) => Toggled(entries[i := flagged], fs, Err(CannotResolveFile(slug, cause)))
        case Ok(found) => ToggleFile(fs, dir, entries[i := flagged.(filename := found)], slug, found, wantEnable)
      else ToggleFile(fs, dir, entries[i := flagged], slug, flagged.filename, wantEnable)
  }

  /** An empty file name is resolved by the checksum scan and kept in the entry;
      a failed scan is an error that renames nothing. */
  lemma ToggleHeals(fs: FileSystem, gameDir: string, entries: seq<Entry>, slug: string, wantEnable: bool)
    requires WellFormed(fs) && SlugIndex(entries, slug).Some?
    requires entries[SlugIndex(entries, slug).value].filename == ""
    ensures var i := SlugIndex(entries, slug).value;
            var e := entries[i];
            var t := Toggle(fs, gameDir, entries, slug, wantEnable);
            var found := FindByChecksum(fs, PathJoin(gameDir, e.dest), e.checksum);
            (found.Ok? ==> t.entries[i].filename == found.value)
            && (found.Err? ==> t.result == Err(CannotResolveFile(slug, found.error)) && t.fs == fs)
  {
  }

  /** A successful toggle moves the file from its source name to its target
      name in the entry's directory and touches no other name. */
  lemma ToggleMoves(fs: FileSystem, gameDir: string, entries: seq<Entry>, slug: string, wantEnable: bool, x: string)
    requires WellFormed(fs) && Toggle(fs, gameDir, entries, slug, wantEnable).result.Ok?
    ensures SlugIndex(entries, slug).Some?
    ensures var i := SlugIndex(entries, slug).value;
            var t := Toggle(fs, gameDir, entries, slug, wantEnable);
            var dir := PathJoin(gameDir, entries[i].dest);
            var name := t.entries[i].filename;
            Stat(t.fs, dir, x) ==
              if x == Target(name, wantEnable) then Stat(fs, dir, Source(name, wantEnable))
              else if x == Source(name, wantEnable) then None
              else Stat(fs, dir, x)
  {
    var i := SlugIndex(entries, slug).value;
    var t := Toggle(fs, gameDir, entries, slug, wantEnable);
    var dir := PathJoin(gameDir, entries[i].dest);
    var name := t.entries[i].filename;
    RenamedStat(fs, dir, Source(name, wantEnable), Target(name, wantEnable), x);
  }

  /** Repeating a successful toggle fails: its source name is gone. */
  lemma ToggleRepeatFails(fs: FileSystem, gameDir: string, entries: seq<Entry>, slug: string, wantEnable: bool)
    requires WellFormed(fs)
    requires var t := Toggle(fs, gameDir, entries, slug, wantEnable);
             t.result.Ok? && t.entries[SlugIndex(entries, slug).value].filename != ""
    ensures var t := Toggle(fs, gameDir, entries, slug, wantEnable);
            var t2 := Toggle(t.fs, gameDir, t.entries, slug, wantEnable);
            t2.result.Err? && t2.result.error.FileNotFound? && t2.fs == t.fs
  {
    var t := Toggle(fs, gameDir, entries, slug, wantEnable);
    var i := SlugIndex(entries, slug).value;
    var name := t.entries[i].filename;
    var dir := PathJoin(gameDir, entries[i].dest);
    SlugIndexKeep(entries, t.entries, slug);
    SourceTargetDiffer(name, wantEnable);
    ToggleMoves(fs, gameDir, entries, slug, wantEnable, Source(name, wantEnable));
  }

  /** Disabling and then enabling a mod whose disabled name was free puts every
      file back where it was, and leaves the entry enabled. */
  lemma ToggleRoundTrip(fs: FileSystem, gameDir: string, entries: seq<Entry>, slug: string)
    requires WellFormed(fs) && SlugIndex(entries, slug).Some?
    requires var i := SlugIndex(entries, slug).value;
             var name := entries[i].filename;
             name != "" && Stat(fs, PathJoin(gameDir, entries[i].dest), name + DisabledSuffix).None?
    requires Toggle(fs, gameDir, entries, slug, false).result.Ok?
    ensures var i := SlugIndex(entries, slug).value;
            var off := Toggle(fs, gameDir, entries, slug, false);
            var on := Toggle(off.fs, gameDir, off.entries, slug, true);
            on == Toggled(entries[i := entries[i].(enable := true)], fs, Ok(()))
  {
    var i := SlugIndex(entries, slug).value;
    var name := entries[i].filename;
    var dir := PathJoin(gameDir, entries[i].dest);
    var off := Toggle(fs, gameDir, entries, slug, false);
    ToggleNamed(fs, gameDir, entries, slug, false);
    assert off.entries == entries[i := entries[i].(enable := false)];
    SlugIndexKeep(entries, off.entries, slug);
    ToggleNamed(off.fs, gameDir, off.entries, slug, true);
    assert off.entries[i := off.entries[i].(enable := true)] == entries[i := entries[i].(enable := true)];
    FileRoundTrip(fs, dir, off.entries, entries[i := entries[i].(enable := true)], slug, name);
  }

  /** The file step of a disable followed by that of an enable restores the
      directory when the disabled name was free. */
  lemma FileRoundTrip(fs: FileSystem, dir: string, e1: seq<Entry>, e2: seq<Entry>, slug: string, name: string)
    requires WellFormed(fs) && Stat(fs, dir, name + DisabledSuffix).None?
    requires ToggleFile(fs, dir, e1, slug, name, false).result.Ok?
    ensures ToggleFile(ToggleFile(fs, dir, e1, slug, name, false).fs, dir, e2, slug, name, true) == Toggled(e2, fs, Ok(()))
  {
    SourceTargetDiffer(name, false);
    RenameBack(fs, dir, name, name + DisabledSuffix);
    RenamedStat(fs, dir, name, name + DisabledSuffix, name + DisabledSuffix);
  }

  /** Enabling and then disabling a mod whose enabled name was free puts every
      file back where it was, and leaves the entry disabled. */
  lemma ToggleRoundTripEnable(fs: FileSystem, gameDir: string, entries: seq<Entry>, slug: string)
    requires WellFormed(fs) && SlugIndex(entries, slug).Some?
    requires var i := SlugIndex(entries, slug).value;
             var name := entries[i].filename;
             name != "" && Stat(fs, PathJoin(gameDir, entries[i].dest), name).None?
    requires Toggle(fs, gameDir, entries, slug, true).result.Ok?
    ensures var i := SlugIndex(entries, slug).value;
            var on := Toggle(fs, gameDir, entries, slug, true);
            var off := Toggle(on.fs, gameDir, on.entries, slug, false);
            off == Toggled(entries[i := entries[i].(enable := false)], fs, Ok(()))
  {
    var i := SlugIndex(entries, slug).value;
    var name := entries[i].filename;
    var dir := PathJoin(gameDir, entries[i].dest);
    var on := Toggle(fs, gameDir, entries, slug, true);
    ToggleNamed(fs, gameDir, entries, slug, true);
    assert on.entries == entries[i := entries[i].(enable := true)];
    SlugIndexKeep(entries, on.entries, slug);
    ToggleNamed(on.fs, gameDir, on.entries, slug, false);
    assert on.entries[i := on.entries[i].(enable := false)] == entries[i := entries[i].(enable := false)];
    FileRoundTripEnable(fs, dir, on.entries, entries[i := entries[i].(enable := false)], slug, name);
  }

  /** The file step of an enable followed by that of a disable restores the
      directory when the enabled name was free. */
  lemma FileRoundTripEnable(fs: FileSystem, dir: string, e1: seq<Entry>, e2: seq<Entry>, slug: string, name: string)
    requires WellFormed(fs) && Stat(fs, dir, name).None?
    requires ToggleFile(fs, dir, e1, slug, name, true).result.Ok?
    ensures ToggleFile(ToggleFile(fs, dir, e1, slug, name, true).fs, dir, e2, slug, name, false) == Toggled(e2, fs, Ok(()))
  {
    SourceTargetDiffer(name, true);
    RenameBack(fs, dir, name + DisabledSuffix, name);
    RenamedStat(fs, dir, name + DisabledSuffix, name, name);
  }

  /** With a file name recorded, a toggle goes straight to the file step. */
  lemma ToggleNamed(fs: FileSystem, gameDir: string, entries: seq<Entry>, slug: string, wantEnable: bool)
    requires WellFormed(fs) && SlugIndex(entries, slug).Some?
    requires entries[SlugIndex(entries, slug).value].filename != ""
    ensures var i := SlugIndex(entries, slug).value;
            Toggle(fs, gameDir, entries, slug, wantEnable) ==
              ToggleFile(fs, PathJoin(gameDir, entries[i].dest), entries[i := entries[i].(enable := wantEnable)],
                         slug, entries[i].filename, wantEnable)
  {
  }

  /** Entry lists with the same slugs, position by position, have the same
      first matches. */
  lemma {:induction false} SlugIndexKeep(a: seq<Entry>, b: seq<Entry>, slug: string)
    requires |a| == |b| && forall j :: 0 <= j < |a| ==> a[j].slug == b[j].slug
    ensures SlugIndex(a, slug) == SlugIndex(b, slug)
  {
    if |a| > 0 {
      SlugIndexKeep(a[1..], b[1..], slug);
    }
  }
}
