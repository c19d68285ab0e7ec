/** The manifest's records (internal/manifest/types.go) and the lookups every
    manifest operation shares. */
module ManifestTypes {
  import opened Results
  import opened Seqs

  /** One tracked project: its registry slug, the installed version, where it
      lives under the game directory, and the file recorded for it. */
  datatype Entry = Entry(
    slug: string,
    version: string,
    versionNumber: string,
    dest: string,
    checksum: string,
    filename: string,
    enable: bool)

  /** The game the manifest targets. */
  datatype Minecraft = Minecraft(loader: string, loaderVersion: string, version: string)

  /** The persisted part of a manifest: what `Save` writes. */
  datatype Document = Document(
    schema: int,
    minecraft: Minecraft,
    mods: seq<Entry>,
    resourcePacks: seq<Entry>,
    shaders: seq<Entry>)

  /** The three ordered entry lists of a manifest. */
  datatype Section = Mods | ResourcePacks | Shaders

  /** One section of a document. */
  function Get(doc: Document, sec: Section): seq<Entry> {
    match sec
    case Mods => doc.mods
    case ResourcePacks => doc.resourcePacks
    case Shaders => doc.shaders
  }

  /** A document with one section replaced and everything else kept. */
  function With(doc: Document, sec: Section, entries: seq<Entry>): (r: Document)
    ensures Get(r, sec) == entries
    ensures forall s :: s != sec ==> Get(r, s) == Get(doc, s)
    ensures r.schema == doc.schema && r.minecraft == doc.minecraft
  {
    match sec
    case Mods => doc.(mods := entries)
    case ResourcePacks => doc.(resourcePacks := entries)
    case Shaders => doc.(shaders := entries)
  }

  /** The schema number written by `New`. */
  const SchemaVersion: int := 1

  /** The position of the first entry with `slug`, if any. */
  function SlugIndex(entries: seq<Entry>, slug: string): (r: Option<nat>)
    ensures r.Some? ==> r.value < |entries| && entries[r.value].slug == slug
                        && forall j :: 0 <= j < r.value ==> entries[j].slug != slug
    ensures r.None? ==> forall j :: 0 <= j < |entries| ==> entries[j].slug != slug
  {
    if |entries| == 0 then None
    else if entries[0].slug == slug then Some(0)
    else match SlugIndex(entries[1..], slug)
         case None => None
         case Some(i) => Some(i + 1)
  }

  predicate IsEnabled(e: Entry) {
    e.enable
  }

  /** `Enabled`'s answer for a list: its enabled entries, in order. */
  function EnabledEntries(entries: seq<Entry>): seq<Entry> {
    Filter(entries, IsEnabled)
  }

  /** Every enabled entry is kept, in order, and nothing else. */
  lemma {:induction false} EnabledEntriesExact(entries: seq<Entry>)
    ensures var r := EnabledEntries(entries);
            (forall i :: 0 <= i < |r| ==> r[i].enable && r[i] in entries)
            && (forall i :: 0 <= i < |entries| && entries[i].enable ==> entries[i] in r)
    ensures EnabledEntries(EnabledEntries(entries)) == EnabledEntries(entries)
  {
    FilterIdempotent(entries, IsEnabled);
  }

  /** How many entries carry `slug`. */
  function Count(entries: seq<Entry>, slug: string): nat {
    if |entries| == 0 then 0
    else (if entries[0].slug == slug then 1 else 0) + Count(entries[1..], slug)
  }
}
