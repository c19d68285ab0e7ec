/** The consistency check that compares recorded files with the disk and heals
    renamed ones (`CheckFilenames`, internal/manifest/manifest.go:392-461). */
module ManifestCheck {
  import opened Results
  import opened Disk
  import opened Checksums
  import opened ManifestTypes

  /** One line of the check's report. */
  datatype Report =
    | NoFilename(slug: string)
    | Unreadable(slug: string, cause: Error)
    | FilenameChanged(slug: string, from: string, to: string)
    | ChecksumMismatch(slug: string, filename: string, want: string, got: string)
    | Missing(slug: string, path: string)

  /** An entry after its check, and what was reported about it. */
  datatype Checked = Checked(entry: Entry, report: Option<Report>)

  /** The check of one entry, in the order the program tries: no name; the
      recorded file is right; another file in the directory is right (heal);
      the recorded file is there but wrong; nothing found. */
  function CheckEntry(fs: FileSystem, baseDir: string, e: Entry): (c: Checked)
    ensures c.entry == e || (c.report.Some? && c.report.value.FilenameChanged? && c.entry == e.(filename := c.report.value.to))
  {
    if e.filename == "" then Checked(e, Some(NoFilename(e.slug)))
    else
      var dir := PathJoin(baseDir, e.dest);
      match FileHasDigest(fs, dir, e.filename, e.checksum)
      case Err(cause) => Checked(e, Some(Unreadable(e.slug, cause)))
      case Ok(true) => Checked(e, None)
      case Ok(false) =>
        match FindByChecksum(fs, dir, e.checksum)
        case Ok(found) => Checked(e.(filename := found), Some(FilenameChanged(e.slug, e.filename, found)))
        case Err(_) =>
          match Stat(fs, dir, e.filename)
          case Some(Regular(got)) => Checked(e, Some(ChecksumMismatch(e.slug, e.filename, e.checksum, got)))
          case Some(Other(got)) => Checked(e, Some(ChecksumMismatch(e.slug, e.filename, e.checksum, got)))
          case Some(Directory) => Checked(e, Some(Unreadable(e.slug, ReadFailed(PathJoin(dir, e.filename)))))
          case None => Checked(e, Some(Missing(e.slug, PathJoin(dir, e.filename))))
  }

  /** What each outcome says about the disk. */
  lemma CheckEntryOutcomes(fs: FileSystem, baseDir: string, e: Entry)
    requires WellFormed(fs)
    ensures var c := CheckEntry(fs, baseDir, e);
            var dir := PathJoin(baseDir, e.dest);
            (c.report == Some(NoFilename(e.slug)) <==> e.filename == "")
            && (c.report.None? <==> e.filename != "" && FileHasDigest(fs, dir, e.filename, e.checksum) == Ok(true))
            && (c.report.Some? && c.report.value.FilenameChanged? ==>
                  FileHasDigest(fs, dir, c.report.value.to, e.checksum) == Ok(true)
                  && FileHasDigest(fs, dir, e.filename, e.checksum) == Ok(false)
                  && c.report.value.to != e.filename)
            && (c.report.Some? && c.report.value.ChecksumMismatch? ==>
                  c.entry == e && c.report.value.got != e.checksum
                  && FindByChecksum(fs, dir, e.checksum).Err?)
            && (c.report.Some? && c.report.value.Missing? ==>
                  Stat(fs, dir, e.filename).None? && FindByChecksum(fs, dir, e.checksum).Err?)
  {
    var dir := PathJoin(baseDir, e.dest);
    if e.filename != "" && FindByChecksum(fs, dir, e.checksum).Ok? {
      FoundHasDigest(fs, dir, e.checksum);
    }
  }

  /** Checking a checked entry again changes nothing more, and a healed entry
      then checks clean. */
  lemma CheckEntryStable(fs: FileSystem, baseDir: string, e: Entry)
    requires WellFormed(fs) && NamesNonEmpty(fs)
    ensures var c := CheckEntry(fs, baseDir, e);
            CheckEntry(fs, baseDir, c.entry).entry == c.entry
            && (c.entry != e ==> CheckEntry(fs, baseDir, c.entry).report.None?)
  {
    CheckEntryOutcomes(fs, baseDir, e);
    var c := CheckEntry(fs, baseDir, e);
    if c.entry != e {
      var dir := PathJoin(baseDir, e.dest);
      var i := FirstMatch(fs[dir], e.checksum).value;
      assert c.entry.filename == fs[dir][i].name;
    }
  }

  /** The entries and the report lines after checking one section. */
  datatype SectionCheck = SectionCheck(entries: seq<Entry>, reports: seq<Report>)

  function ReportOf(c: Checked): seq<Report> {
    if c.report.Some? then [c.report.value] else []
  }

  /** The check of one entry against a given disk and base directory. */
  function Checker(fs: FileSystem, baseDir: string): Entry -> Checked {
    e => CheckEntry(fs, baseDir, e)
  }

  /** A section checked entry by entry in order with `check`. */
  function CheckAll(check: Entry -> Checked, entries: seq<Entry>): (r: SectionCheck)
    ensures |r.entries| == |entries| && |r.reports| <= |entries|
    decreases |entries|
  {
    if |entries| == 0 then SectionCheck([], [])
    else
      var prev := CheckAll(check, entries[..|entries| - 1]);
      var c := check(entries[|entries| - 1]);
      SectionCheck(prev.entries + [c.entry], prev.reports + ReportOf(c))
  }

  /** `CheckFilenames`' pass over one section. */
  function CheckSection(fs: FileSystem, baseDir: string, entries: seq<Entry>): SectionCheck {
    CheckAll(Checker(fs, baseDir), entries)
  }

  /** Each entry of a checked section is that entry's own check. */
  lemma {:induction false} CheckAllEntries(check: Entry -> Checked, entries: seq<Entry>)
    ensures forall i :: 0 <= i < |entries| ==> CheckAll(check, entries).entries[i] == check(entries[i]).entry
    decreases |entries|
  {
    if |entries| > 0 {
      var init := entries[..|entries| - 1];
      CheckAllEntries(check, init);
      assert forall i :: 0 <= i < |init| ==> init[i] == entries[i];
    }
  }

  /** A section reports nothing exactly when every entry in it checks clean. */
  lemma {:induction false} CheckAllClean(check: Entry -> Checked, entries: seq<Entry>)
    ensures |CheckAll(check, entries).reports| == 0 <==> forall i :: 0 <= i < |entries| ==> check(entries[i]).report.None?
    decreases |entries|
  {
    if |entries| > 0 {
      var init := entries[..|entries| - 1];
      CheckAllClean(check, init);
      assert forall i :: 0 <= i < |init| ==> init[i] == entries[i];
    }
  }

  /** Whether `check` changes some entry of the list. */
  predicate AnyChanged(check: Entry -> Checked, entries: seq<Entry>) {
    exists i :: 0 <= i < |entries| && check(entries[i]).entry != entries[i]
  }

  /** Whether a one-longer prefix has a changed entry. */
  lemma AnyChangedSnoc(check: Entry -> Checked, entries: seq<Entry>, i: nat)
    requires i < |entries|
    ensures AnyChanged(check, entries[..i + 1]) <==> AnyChanged(check, entries[..i]) || check(entries[i]).entry != entries[i]
  {
    var longer := entries[..i + 1];
    assert forall j :: 0 <= j < i ==> longer[j] == entries[..i][j];
    assert longer[i] == entries[i];
  }

  /** The section changes exactly when some entry is changed. */
  lemma CheckAllChanged(check: Entry -> Checked, entries: seq<Entry>)
    ensures CheckAll(check, entries).entries != entries <==> AnyChanged(check, entries)
  {
    var r := CheckAll(check, entries).entries;
    CheckAllEntries(check, entries);
    if AnyChanged(check, entries) {
      var i :| 0 <= i < |entries| && check(entries[i]).entry != entries[i];
      assert r[i] != entries[i];
    }
  }

  /** A section reports nothing exactly when every entry in it checks clean,
      and it changes exactly when some entry is healed. */
  lemma CheckSectionOutcome(fs: FileSystem, baseDir: string, entries: seq<Entry>)
    ensures var r := CheckSection(fs, baseDir, entries);
            (|r.reports| == 0 <==> forall i :: 0 <= i < |entries| ==> CheckEntry(fs, baseDir, entries[i]).report.None?)
            && (r.entries != entries <==> exists i :: 0 <= i < |entries| && CheckEntry(fs, baseDir, entries[i]).entry != entries[i])
            && (|r.reports| == 0 ==> r.entries == entries)
  {
    var check := Checker(fs, baseDir);
    CheckAllClean(check, entries);
    CheckAllChanged(check, entries);
    assert forall e :: check(e) == CheckEntry(fs, baseDir, e);
  }

  /** Running the check a second time heals nothing more. */
  lemma CheckSectionStable(fs: FileSystem, baseDir: string, entries: seq<Entry>)
    requires WellFormed(fs) && NamesNonEmpty(fs)
    ensures var once := CheckSection(fs, baseDir, entries).entries;
            CheckSection(fs, baseDir, once).entries == once
  {
    var check := Checker(fs, baseDir);
    var once := CheckAll(check, entries).entries;
    CheckAllEntries(check, entries);
    forall i | 0 <= i < |once|
      ensures check(once[i]).entry == once[i]
    {
      CheckEntryStable(fs, baseDir, entries[i]);
    }
    CheckAllChanged(check, once);
  }

  /** The per-section loop of `CheckFilenames`: each entry is checked in turn,
      report lines are appended, and `changed` records whether any was healed. */
  method CheckEntries(disk: Disk, baseDir: string, entries: seq<Entry>)
    returns (out: seq<Entry>, reports: seq<Report>, changed: bool)
    requires disk.Valid()
    ensures out == CheckSection(disk.fs, baseDir, entries).entries
    ensures reports == CheckSection(disk.fs, baseDir, entries).reports
    ensures changed <==> out != entries
  {
    var check := Checker(disk.fs, baseDir);
    out, reports, changed := [], [], false;
    var i := 0;
    while i < |entries|
      invariant 0 <= i <= |entries|
      invariant CheckAll(check, entries[..i]) == SectionCheck(out, reports)
      invariant changed <==> AnyChanged(check, entries[..i])
    {
      var c := check(entries[i]);
      assert entries[..i + 1][..i] == entries[..i];
      AnyChangedSnoc(check, entries, i);
      out := out + [c.entry];
      reports := reports + ReportOf(c);
      if c.entry != entries[i] {
        changed := true;
      }
      i := i + 1;
    }
    assert entries[..i] == entries;
    CheckAllChanged(check, entries);
  }

  /** The whole document after the check, and every report line in section
      order: mods, resource packs, shaders. */
  datatype Consistency = Consistency(doc: Document, reports: seq<Report>)

  function CheckDocument(fs: FileSystem, baseDir: string, doc: Document): (c: Consistency)
    ensures c.doc.schema == doc.schema && c.doc.minecraft == doc.minecraft
  {
    var m := CheckSection(fs, baseDir, doc.mods);
    var p := CheckSection(fs, baseDir, doc.resourcePacks);
    var s := CheckSection(fs, baseDir, doc.shaders);
    Consistency(doc.(mods := m.entries, resourcePacks := p.entries, shaders := s.entries),
                m.reports + p.reports + s.reports)
  }

  /** Whether every entry of a list checks clean. */
  predicate SectionClean(fs: FileSystem, baseDir: string, entries: seq<Entry>) {
    forall i :: 0 <= i < |entries| ==> CheckEntry(fs, baseDir, entries[i]).report.None?
  }

  /** The check reports nothing exactly when every entry of every section checks
      clean, and then the document is left as it was. */
  lemma CheckDocumentClean(fs: FileSystem, baseDir: string, doc: Document)
    ensures var c := CheckDocument(fs, baseDir, doc);
            (|c.reports| == 0 <==>
               SectionClean(fs, baseDir, doc.mods) && SectionClean(fs, baseDir, doc.resourcePacks)
               && SectionClean(fs, baseDir, doc.shaders))
            && (|c.reports| == 0 ==> c.doc == doc)
  {
    CheckSectionOutcome(fs, baseDir, doc.mods);
    CheckSectionOutcome(fs, baseDir, doc.resourcePacks);
    CheckSectionOutcome(fs, baseDir, doc.shaders);
  }

  /** Checking a checked document again heals nothing more. */
  lemma CheckDocumentStable(fs: FileSystem, baseDir: string, doc: Document)
    requires WellFormed(fs) && NamesNonEmpty(fs)
    ensures var once := CheckDocument(fs, baseDir, doc).doc;
            CheckDocument(fs, baseDir, once).doc == once
  {
    CheckSectionStable(fs, baseDir, doc.mods);
    CheckSectionStable(fs, baseDir, doc.resourcePacks);
    CheckSectionStable(fs, baseDir, doc.shaders);
  }
}
