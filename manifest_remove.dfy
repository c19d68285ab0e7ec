/** Removing entries: `RemoveFromSection` and `Remove`
    (internal/manifest/manifest.go:262-330). */
module ManifestRemove {
  import opened Results
  import opened Disk
  import opened Checksums
  import opened ManifestTypes
  import ManifestAdd
  import ModrinthVersions

  /** The name under which `RemoveFromSection` and `Remove` know a section. */
  function SectionName(sec: Section): string {
    match sec
    case Mods => "mods"
    case ResourcePacks => "resourcepacks"
    case Shaders => "shaders"
  }

  /** The section a `RemoveFromSection` name selects: the one it names. */
  function SectionNamed(name: string): (r: Option<Section>)
    ensures r.Some? <==> name in {"mods", "resourcepacks", "shaders"}
    ensures r.Some? ==> SectionName(r.value) == name
  {
    if name == SectionName(Mods) then Some(Mods)
    else if name == SectionName(ResourcePacks) then Some(ResourcePacks)
    else if name == SectionName(Shaders) then Some(Shaders)
    else None
  }

  /** Every section is selected by its own name. */
  lemma SectionNameRoundTrip(sec: Section)
    ensures SectionNamed(SectionName(sec)) == Some(sec)
  {
  }

  /** The list with its first entry for `slug` spliced out; the rest keep
      their order. */
  function RemovedFirst(entries: seq<Entry>, slug: string): (r: seq<Entry>)
    requires SlugIndex(entries, slug).Some?
    ensures var i := SlugIndex(entries, slug).value;
            |r| == |entries| - 1
            && (forall j :: 0 <= j < i ==> r[j] == entries[j])
            && (forall j :: i <= j < |r| ==> r[j] == entries[j + 1])
  {
    var i := SlugIndex(entries, slug).value;
    entries[..i] + entries[i + 1..]
  }

  lemma {:induction false} CountSplit(a: seq<Entry>, b: seq<Entry>, slug: string)
    ensures Count(a + b, slug) == Count(a, slug) + Count(b, slug)
  {
    if |a| > 0 {
      assert (a + b)[1..] == a[1..] + b;
      CountSplit(a[1..], b, slug);
    } else {
      assert a + b == b;
    }
  }

  /** Exactly one entry with the slug goes; other slugs keep their counts. */
  lemma RemovedFirstCount(entries: seq<Entry>, slug: string, other: string)
    requires SlugIndex(entries, slug).Some?
    ensures Count(RemovedFirst(entries, slug), slug) == Count(entries, slug) - 1
    ensures other != slug ==> Count(RemovedFirst(entries, slug), other) == Count(entries, other)
  {
    var i := SlugIndex(entries, slug).value;
    assert entries == entries[..i] + [entries[i]] + entries[i + 1..];
    CountSplit(entries[..i] + [entries[i]], entries[i + 1..], slug);
    CountSplit(entries[..i], [entries[i]], slug);
    CountSplit(entries[..i], entries[i + 1..], slug);
    CountSplit(entries[..i] + [entries[i]], entries[i + 1..], other);
    CountSplit(entries[..i], [entries[i]], other);
    CountSplit(entries[..i], entries[i + 1..], other);
    assert [entries[i]][1..] == [];
  }

  /** Removing a project that `Add` just appended gives the list back. */
  lemma RemoveUndoesAdd(entries: seq<Entry>, slug: string, sec: Section, v: ModrinthVersions.Version)
    requires SlugIndex(entries, slug).None?
    ensures var added := ManifestAdd.Upserted(entries, slug, sec, v);
            SlugIndex(added, slug) == Some(|entries|) && RemovedFirst(added, slug) == entries
  {
    var added := ManifestAdd.Upserted(entries, slug, sec, v);
    ManifestAdd.SlugIndexAppend(entries, ManifestAdd.NewEntry(slug, sec, v), slug);
    assert added[..|entries|] == entries;
  }

  /** `RemoveFromSection(section, slug)`: an unknown section or an absent slug is
      an error that changes nothing; otherwise only that section changes. */
  function RemoveFromSection(doc: Document, section: string, slug: string): (r: Result<Document>)
    ensures SectionNamed(section).None? ==> r == Err(UnknownSection(section))
    ensures SectionNamed(section).Some? ==>
              var sec := SectionNamed(section).value;
              if SlugIndex(Get(doc, sec), slug).None? then r == Err(SlugNotInSection(slug, section))
              else r.Ok? && Get(r.value, sec) == RemovedFirst(Get(doc, sec), slug)
                   && forall s :: s != sec ==> Get(r.value, s) == Get(doc, s)
  {
    match SectionNamed(section)
    case None => Err(UnknownSection(section))
    case Some(sec) =>
      var entries := Get(doc, sec);
      if SlugIndex(entries, slug).None? then Err(SlugNotInSection(slug, section))
      else Ok(With(doc, sec, RemovedFirst(entries, slug)))
  }

  /** The section `Remove` deletes from: the first of mods, resource packs and
      shaders that lists the slug. */
  function SectionWith(doc: Document, slug: string): (r: Option<Section>)
    ensures r.Some? ==> SlugIndex(Get(doc, r.value), slug).Some?
    ensures r.None? <==> forall s :: SlugIndex(Get(doc, s), slug).None?
    ensures r == Some(ResourcePacks) ==> SlugIndex(doc.mods, slug).None?
    ensures r == Some(Shaders) ==> SlugIndex(doc.mods, slug).None? && SlugIndex(doc.resourcePacks, slug).None?
  {
    if SlugIndex(doc.mods, slug).Some? then Some(Mods)
    else if SlugIndex(doc.resourcePacks, slug).Some? then Some(ResourcePacks)
    else if SlugIndex(doc.shaders, slug).Some? then Some(Shaders)
    else None
  }

  /** The document, the file system and the answer after a `Remove`. */
  datatype Removal = Removal(doc: Document, fs: FileSystem, result: Result<()>)

  /** The file an entry names in its directory: the recorded name, or else the
      checksum scan's answer. */
  function ResolveFile(fs: FileSystem, gameDir: string, e: Entry): (r: Result<string>)
    ensures e.filename != "" ==> r == Ok(e.filename)
    ensures e.filename == "" ==> r == FindByChecksum(fs, PathJoin(gameDir, e.dest), e.checksum)
  {
    if e.filename != "" then Ok(e.filename) else FindByChecksum(fs, PathJoin(gameDir, e.dest), e.checksum)
  }

  /** `Remove(gameDir, slug)`: the file is deleted first (a file already gone is
      fine) and only then the entry; any failure changes nothing. */
  function Remove(fs: FileSystem, gameDir: string, doc: Document, slug: string): (r: Removal)
    requires WellFormed(fs)
    ensures WellFormed(r.fs)
    ensures r.result.Err? ==> r.doc == doc && r.fs == fs
  {
    match SectionWith(doc, slug)
    case None => Removal(doc, fs, Err(SlugNotInAnySection(slug)))
    case Some(sec) => RemoveAt(fs, gameDir, doc, sec, slug)
  }

  /** The removal once `sec` is known to list the slug: only that section and
      the entry's directory can change. */
  function RemoveAt(fs: FileSystem, gameDir: string, doc: Document, sec: Section, slug: string): (r: Removal)
    requires WellFormed(fs) && SlugIndex(Get(doc, sec), slug).Some?
    ensures WellFormed(r.fs)
    ensures r.result.Err? ==> r.doc == doc && r.fs == fs
    ensures r.result.Ok? ==> r.doc == With(doc, sec, RemovedFirst(Get(doc, sec), slug))
  {
    var entries := Get(doc, sec);
    var e := entries[SlugIndex(entries, slug).value];
    var dir := PathJoin(gameDir, e.dest);
    match ResolveFile(fs, gameDir, e)
    case Err(cause) => Removal(doc, fs, Err(CannotResolveFile(slug, cause)))
    case Ok(name) =>
      match RemoveResult(fs, dir, name)
      case Err(cause) => Removal(doc, fs, Err(cause))
      case Ok(_) => Removal(With(doc, sec, RemovedFirst(entries, slug)), Removed(fs, dir, name), Ok(()))
  }

  /** A successful `Remove` drops one entry from the first section listing the
      slug, leaves the other sections alone, and the file is gone from its
      directory while every other name stays as it was. */
  lemma RemoveEffect(fs: FileSystem, gameDir: string, doc: Document, slug: string, x: string)
    requires WellFormed(fs) && Remove(fs, gameDir, doc, slug).result.Ok?
    ensures SectionWith(doc, slug).Some?
    ensures var sec := SectionWith(doc, slug).value;
            var r := Remove(fs, gameDir, doc, slug);
            var e := Get(doc, sec)[SlugIndex(Get(doc, sec), slug).value];
            var dir := PathJoin(gameDir, e.dest);
            var name := ResolveFile(fs, gameDir, e).value;
            Get(r.doc, sec) == RemovedFirst(Get(doc, sec), slug)
            && (forall s :: s != sec ==> Get(r.doc, s) == Get(doc, s))
            && Stat(r.fs, dir, x) == (if x == name then None else Stat(fs, dir, x))
  {
    var sec := SectionWith(doc, slug).value;
    var e := Get(doc, sec)[SlugIndex(Get(doc, sec), slug).value];
    var dir := PathJoin(gameDir, e.dest);
    var name := ResolveFile(fs, gameDir, e).value;
    if dir in fs {
      FindRemove(fs[dir], name, x);
    }
  }
}
