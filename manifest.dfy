/** The manifest object (internal/manifest/manifest.go): three ordered entry
    lists that its methods update in place, plus the file it is saved to. */
module Manifests {
  import opened Results
  import opened Seqs
  import opened Disk
  import opened Checksums
  import opened ManifestTypes
  import opened ModrinthVersions
  import ManifestAdd
  import ManifestToggle
  import ManifestRemove
  import ManifestCheck

  /** The first position of `slug` in a list, found by a forward scan. */
  method FindSlug(entries: seq<Entry>, slug: string) returns (r: Option<nat>)
    ensures r == SlugIndex(entries, slug)
  {
    var i := 0;
    while i < |entries|
      invariant 0 <= i <= |entries|
      invariant forall j :: 0 <= j < i ==> entries[j].slug != slug
    {
      if entries[i].slug == slug {
        return Some(i);
      }
      i := i + 1;
    }
    return None;
  }

  /** The add-or-update loop of `Add` over one section. */
  method UpsertEntries(entries: seq<Entry>, slug: string, sec: Section, v: Version) returns (out: seq<Entry>)
    ensures out == ManifestAdd.Upserted(entries, slug, sec, v)
  {
    var i := 0;
    while i < |entries|
      invariant 0 <= i <= |entries|
      invariant forall j :: 0 <= j < i ==> entries[j].slug != slug
    {
      if entries[i].slug == slug {
        return entries[i := ManifestAdd.Refreshed(entries[i], sec, v)];
      }
      i := i + 1;
    }
    return entries + [ManifestAdd.NewEntry(slug, sec, v)];
  }

  /** The rename at the end of `toggleDisabled`, once the file name is known. */
  method RenameEntryFile(disk: Disk, dir: string, slug: string, name: string, wantEnable: bool) returns (r: Result<()>)
    requires disk.Valid()
    modifies disk
    ensures disk.Valid()
    ensures var t := ManifestToggle.ToggleFile(old(disk.fs), dir, [], slug, name, wantEnable);
            r == t.result && disk.fs == t.fs
  {
    var from := ManifestToggle.Source(name, wantEnable);
    var to := ManifestToggle.Target(name, wantEnable);
    if Stat(disk.fs, dir, from).None? {
      return Err(FileNotFound(slug, PathJoin(dir, from)));
    }
    var moved := disk.Rename(dir, from, to);
    if moved.Err? {
      return Err(ToggleFailed(slug, moved.error));
    }
    return Ok(());
  }

  /** `toggleDisabled` on a list: the entry is updated in place, then its file
      is renamed. */
  method ToggleEntries(disk: Disk, gameDir: string, entries: seq<Entry>, slug: string, wantEnable: bool)
    returns (out: seq<Entry>, r: Result<()>)
    requires disk.Valid()
    modifies disk
    ensures disk.Valid()
    ensures var t := ManifestToggle.Toggle(old(disk.fs), gameDir, entries, slug, wantEnable);
            out == t.entries && disk.fs == t.fs && r == t.result
  {
    out := entries;
    var found := FindSlug(entries, slug);
    if found.None? {
      return out, Err(NotInManifest(slug));
    }
    var i := found.value;
    var flagged := entries[i].(enable := wantEnable);
    out := entries[i := flagged];
    var dir := PathJoin(gameDir, flagged.dest);
    var filename := flagged.filename;
    if filename == "" {
      var byHash := FindFileByChecksum(disk, dir, flagged.checksum);
      if byHash.Err? {
        return out, Err(CannotResolveFile(slug, byHash.error));
      }
      filename := byHash.value;
      out := entries[i := flagged.(filename := filename)];
    }
    r := RenameEntryFile(disk, dir, slug, filename, wantEnable);
  }

  /** The part of `Remove` after the entry has been found in `sec`: resolve the
      file, delete it (a missing file is fine). */
  method RemoveEntryFile(disk: Disk, gameDir: string, doc: Document, sec: Section, slug: string, i: nat)
    returns (r: Result<()>)
    requires disk.Valid() && SlugIndex(Get(doc, sec), slug) == Some(i)
    modifies disk
    ensures disk.Valid()
    ensures var s := ManifestRemove.RemoveAt(old(disk.fs), gameDir, doc, sec, slug);
            r == s.result && disk.fs == s.fs
  {
    var e := Get(doc, sec)[i];
    var dir := PathJoin(gameDir, e.dest);
    var filename := e.filename;
    if filename == "" {
      var byHash := FindFileByChecksum(disk, dir, e.checksum);
      if byHash.Err? {
        return Err(CannotResolveFile(slug, byHash.error));
      }
      filename := byHash.value;
    }
    r := disk.RemoveFile(dir, filename);
  }

  /** The order in which `Remove` visits the sections. */
  function SectionOrder(k: nat): (s: Section)
    requires k < 3
    ensures k == 0 <==> s == Mods
    ensures k == 1 <==> s == ResourcePacks
  {
    if k == 0 then Mods else if k == 1 then ResourcePacks else Shaders
  }

  /** The first section in visiting order that lists the slug is the one
      `Remove` acts on. */
  lemma FirstSectionWith(doc: Document, slug: string, k: nat)
    requires k < 3 && SlugIndex(Get(doc, SectionOrder(k)), slug).Some?
    requires forall j :: 0 <= j < k ==> SlugIndex(Get(doc, SectionOrder(j)), slug).None?
    ensures ManifestRemove.SectionWith(doc, slug) == Some(SectionOrder(k))
  {
    if k > 0 {
      assert SlugIndex(Get(doc, SectionOrder(0)), slug).None?;
    }
    if k > 1 {
      assert SlugIndex(Get(doc, SectionOrder(1)), slug).None?;
    }
  }

  /** A slug absent from all three visited sections is in none. */
  lemma NoSectionWith(doc: Document, slug: string)
    requires forall j :: 0 <= j < 3 ==> SlugIndex(Get(doc, SectionOrder(j)), slug).None?
    ensures ManifestRemove.SectionWith(doc, slug).None?
  {
    assert SlugIndex(Get(doc, SectionOrder(0)), slug).None?;
    assert SlugIndex(Get(doc, SectionOrder(1)), slug).None?;
    assert SlugIndex(Get(doc, SectionOrder(2)), slug).None?;
  }

  /** The three section checks of `CheckFilenames`, in order. */
  method CheckSections(disk: Disk, baseDir: string, doc: Document)
    returns (checked: Document, reports: seq<ManifestCheck.Report>, healed: bool)
    requires disk.Valid()
    ensures var c := ManifestCheck.CheckDocument(disk.fs, baseDir, doc);
            checked == c.doc && reports == c.reports
    ensures healed <==> checked != doc
  {
    var m, mr, mc := ManifestCheck.CheckEntries(disk, baseDir, doc.mods);
    var p, pr, pc := ManifestCheck.CheckEntries(disk, baseDir, doc.resourcePacks);
    var s, sr, sc := ManifestCheck.CheckEntries(disk, baseDir, doc.shaders);
    checked := doc.(mods := m, resourcePacks := p, shaders := s);
    reports := mr + pr + sr;
    healed := mc || pc || sc;
  }

  class Manifest {
    var schema: int
    var minecraft: Minecraft
    var mods: seq<Entry>
    var resourcePacks: seq<Entry>
    var shaders: seq<Entry>
    var path: string
    var baseDir: string
    /** Every document written to `path`, oldest first. */
    ghost var saved: seq<Document>

    /** The persisted fields as one value. */
    function Doc(): Document
      reads this
    {
      Document(schema, minecraft, mods, resourcePacks, shaders)
    }

    /** `New(path, mc)`: an empty manifest of the current schema. */
    constructor New(path: string, mc: Minecraft)
      ensures Doc() == Document(SchemaVersion, mc, [], [], [])
      ensures this.path == path && baseDir == DirOf(path) && saved == []
    {
      schema, minecraft := SchemaVersion, mc;
      mods, resourcePacks, shaders := [], [], [];
      this.path, baseDir := path, DirOf(path);
      saved := [];
    }

    /** `Load(path)` once the file has been read and decoded into `doc`. */
    constructor Load(path: string, doc: Document)
      ensures Doc() == doc && this.path == path && baseDir == DirOf(path) && saved == []
    {
      schema, minecraft := doc.schema, doc.minecraft;
      mods, resourcePacks, shaders := doc.mods, doc.resourcePacks, doc.shaders;
      this.path, baseDir := path, DirOf(path);
      saved := [];
    }

    /** `Save`: refuses when no path is set, else writes the document. */
    method Save() returns (r: Result<()>)
      modifies this`saved
      ensures r == (if path == "" then Err(PathUnset) else Ok(()))
      ensures saved == old(saved) + (if r.Ok? then [Doc()] else [])
    {
      if path == "" {
        return Err(PathUnset);
      }
      saved := saved + [Doc()];
      return Ok(());
    }

    /** Replaces one section. */
    method SetSection(sec: Section, entries: seq<Entry>)
      modifies this`mods, this`resourcePacks, this`shaders
      ensures Doc() == With(old(Doc()), sec, entries)
    {
      match sec
      case Mods => mods := entries;
      case ResourcePacks => resourcePacks := entries;
      case Shaders => shaders := entries;
    }

    /** `Add(slug, dest)` given the registry's answer for the project (its type)
        and its version lists: on success the chosen section gets the project
        added or refreshed; on any error nothing changes. */
    method Add(reg: Registry, project: Result<string>, slug: string, dest: string) returns (r: Result<()>)
      modifies this`mods, this`resourcePacks, this`shaders
      ensures var d := ManifestAdd.AddDecision(project, reg, old(minecraft), slug, dest);
              (d.Err? ==> r == Err(d.error) && Doc() == old(Doc()))
              && (d.Ok? ==> r == Ok(()) && Doc() == With(old(Doc()), d.value.section,
                     ManifestAdd.Upserted(Get(old(Doc()), d.value.section), slug, d.value.section, d.value.version)))
    {
      var d := ManifestAdd.AddDecision(project, reg, minecraft, slug, dest);
      if d.Err? {
        return Err(d.error);
      }
      var sec := d.value.section;
      var updated := UpsertEntries(Get(Doc(), sec), slug, sec, d.value.version);
      SetSection(sec, updated);
      return Ok(());
    }

    /** `Enabled`: the enabled mods, in order. */
    method Enabled() returns (out: seq<Entry>)
      ensures out == EnabledEntries(mods)
    {
      var all := mods;
      out := [];
      var i := 0;
      while i < |all|
        invariant 0 <= i <= |all|
        invariant out == Filter(all[..i], IsEnabled)
      {
        FilterSnoc(all[..i], all[i], IsEnabled);
        assert all[..i + 1] == all[..i] + [all[i]];
        if all[i].enable {
          out := out + [all[i]];
        }
        i := i + 1;
      }
      assert all[..i] == all;
    }

    /** `toggleDisabled(gameDir, m.Mods, slug, wantEnable)`: the entry is updated
        in place through the shared slice, then its file is renamed. */
    method ToggleDisabled(disk: Disk, gameDir: string, slug: string, wantEnable: bool) returns (r: Result<()>)
      requires disk.Valid()
      modifies this`mods, disk
      ensures disk.Valid()
      ensures var t := ManifestToggle.Toggle(old(disk.fs), gameDir, old(mods), slug, wantEnable);
              mods == t.entries && disk.fs == t.fs && r == t.result
    {
      mods, r := ToggleEntries(disk, gameDir, mods, slug, wantEnable);
    }

    /** `Enable(gameDir, slug)`: only the mods section is searched. */
    method Enable(disk: Disk, gameDir: string, slug: string) returns (r: Result<()>)
      requires disk.Valid()
      modifies this`mods, disk
      ensures disk.Valid()
      ensures var t := ManifestToggle.Toggle(old(disk.fs), gameDir, old(mods), slug, true);
              mods == t.entries && disk.fs == t.fs && r == t.result
    {
      r := ToggleDisabled(disk, gameDir, slug, true);
    }

    /** `Disable(gameDir, slug)`: only the mods section is searched. */
    method Disable(disk: Disk, gameDir: string, slug: string) returns (r: Result<()>)
      requires disk.Valid()
      modifies this`mods, disk
      ensures disk.Valid()
      ensures var t := ManifestToggle.Toggle(old(disk.fs), gameDir, old(mods), slug, false);
              mods == t.entries && disk.fs == t.fs && r == t.result
    {
      r := ToggleDisabled(disk, gameDir, slug, false);
    }

    /** `RemoveFromSection(section, slug)`: splices out the first entry with the
        slug. */
    method RemoveFromSection(section: string, slug: string) returns (r: Result<()>)
      modifies this`mods, this`resourcePacks, this`shaders
      ensures var s := ManifestRemove.RemoveFromSection(old(Doc()), section, slug);
              (s.Err? ==> r == Err(s.error) && Doc() == old(Doc()))
              && (s.Ok? ==> r == Ok(()) && Doc() == s.value)
    {
      var sec := ManifestRemove.SectionNamed(section);
      if sec.None? {
        return Err(UnknownSection(section));
      }
      var entries := Get(Doc(), sec.value);
      var found := FindSlug(entries, slug);
      if found.None? {
        return Err(SlugNotInSection(slug, section));
      }
      var i := found.value;
      SetSection(sec.value, entries[..i] + entries[i + 1..]);
      return Ok(());
    }

    /** `Remove(gameDir, slug)`: the sections are searched in the order mods,
        resource packs, shaders; the file goes first, then the entry. */
    method Remove(disk: Disk, gameDir: string, slug: string) returns (r: Result<()>)
      requires disk.Valid()
      modifies this`mods, this`resourcePacks, this`shaders, disk
      ensures disk.Valid()
      ensures var s := ManifestRemove.Remove(old(disk.fs), gameDir, old(Doc()), slug);
              Doc() == s.doc && disk.fs == s.fs && r == s.result
    {
      var doc := Doc();
      var k := 0;
      while k < 3
        invariant 0 <= k <= 3
        invariant forall j :: 0 <= j < k ==> SlugIndex(Get(doc, SectionOrder(j)), slug).None?
        invariant unchanged(this) && unchanged(disk)
      {
        var sec := SectionOrder(k);
        var entries := Get(doc, sec);
        var found := FindSlug(entries, slug);
        if found.Some? {
          FirstSectionWith(doc, slug, k);
          var i := found.value;
          r := RemoveEntryFile(disk, gameDir, doc, sec, slug, i);
          if r.Ok? {
            SetSection(sec, entries[..i] + entries[i + 1..]);
          }
          return;
        }
        k := k + 1;
      }
      NoSectionWith(doc, slug);
      return Err(SlugNotInAnySection(slug));
    }

    /** The tail of `CheckFilenames` once the sections are checked: store the
        healed lists, save once if anything was healed, then report. */
    method Settle(checked: Document, all: seq<ManifestCheck.Report>, healed: bool)
      returns (reports: seq<ManifestCheck.Report>, r: Result<()>)
      requires checked.schema == schema && checked.minecraft == minecraft
      requires healed <==> checked != Doc()
      modifies this`mods, this`resourcePacks, this`shaders, this`saved
      ensures Doc() == checked
      ensures saved == old(saved) + (if healed && path != "" then [checked] else [])
      ensures healed && path == "" ==> reports == [] && r == Err(SaveAfterHealFailed(PathUnset))
      ensures !healed || path != "" ==>
                if |all| == 0 then reports == [] && r == Ok(())
                else reports == all && r == Err(Mismatches(|all|))
    {
      mods, resourcePacks, shaders := checked.mods, checked.resourcePacks, checked.shaders;
      if healed {
        var saveResult := Save();
        if saveResult.Err? {
          return [], Err(SaveAfterHealFailed(saveResult.error));
        }
      }
      if |all| > 0 {
        return all, Err(Mismatches(|all|));
      }
      return [], Ok(());
    }

    /** `CheckFilenames`: checks the mods, resource packs and shaders in turn,
        saves once if any file name was healed, and fails when anything was
        reported. */
    method CheckFilenames(disk: Disk) returns (reports: seq<ManifestCheck.Report>, r: Result<()>)
      requires disk.Valid()
      modifies this`mods, this`resourcePacks, this`shaders, this`saved
      ensures Doc() == ManifestCheck.CheckDocument(disk.fs, baseDir, old(Doc())).doc
      ensures var healed := Doc() != old(Doc());
              saved == old(saved) + (if healed && path != "" then [Doc()] else [])
      ensures Doc() != old(Doc()) && path == "" ==> reports == [] && r == Err(SaveAfterHealFailed(PathUnset))
      ensures Doc() == old(Doc()) || path != "" ==>
                var all := ManifestCheck.CheckDocument(disk.fs, baseDir, old(Doc())).reports;
                if |all| == 0 then reports == [] && r == Ok(())
                else reports == all && r == Err(Mismatches(|all|))
    {
      var checked, all, healed := CheckSections(disk, baseDir, Doc());
      reports, r := Settle(checked, all, healed);
    }
  }
}
