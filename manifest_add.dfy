/** What `Manifest.Add` decides before it touches the manifest, and the
    add-or-update it then applies to one section
    (internal/manifest/manifest.go:64-174). */
module ManifestAdd {
  import opened Results
  import opened ManifestTypes
  import opened ModrinthVersions

  /** The destination inferred from a project type when none was given. */
  function InferDest(projectType: string): (r: Option<string>)
    ensures r.Some? <==> projectType in {"mod", "resourcepack", "shader"}
  {
    match projectType
    case "mod" => Some("mods")
    case "resourcepack" => Some("resourcepacks")
    case "shader" => Some("shaderpacks")
    case _ => None
  }

  /** Pack-like projects are looked up without the loader filter when possible. */
  predicate NeedsLooseSearch(projectType: string) {
    projectType == "resourcepack" || projectType == "shader"
  }

  /** The section a project type is filed under. */
  function SectionOf(projectType: string): (r: Option<Section>)
    ensures r.Some? <==> projectType in {"mod", "resourcepack", "shader"}
  {
    match projectType
    case "mod" => Some(Mods)
    case "resourcepack" => Some(ResourcePacks)
    case "shader" => Some(Shaders)
    case _ => None
  }

  /** The `Dest` written into an entry of each section. */
  function SectionDest(s: Section): string {
    match s
    case Mods => "mods"
    case ResourcePacks => "resourcepacks"
    case Shaders => "shaderpacks"
  }

  /** The registry queries `Add` makes, in order, and the answer it keeps. */
  datatype Fetched = Fetched(queries: seq<Query>, versions: Result<seq<Version>>)

  /** The version lookup of `Add`: one filtered query, then one unfiltered retry
      for pack-like projects whose filtered list came back empty. */
  function FetchVersions(reg: Registry, slug: string, mc: Minecraft, projectType: string, dest: string): (f: Fetched)
    ensures 1 <= |f.queries| <= 2
    ensures f.queries[0].slug == slug && f.queries[0].gameVersion == mc.version
    ensures f.queries[0].loader == (if NeedsLooseSearch(projectType) && dest != "mods" then "" else mc.loader)
    ensures |f.queries| == 2 <==> NeedsLooseSearch(projectType) && reg.projectVersions(f.queries[0]) == Ok([])
    ensures |f.queries| == 2 ==> f.queries[1] == Query(slug, "", "")
    ensures f.versions == reg.projectVersions(f.queries[|f.queries| - 1])
  {
    var loader := if NeedsLooseSearch(projectType) && dest != "mods" then "" else mc.loader;
    var first := Query(slug, mc.version, loader);
    match reg.projectVersions(first)
    case Err(e) => Fetched([first], Err(e))
    case Ok(vs) =>
      if |vs| == 0 && NeedsLooseSearch(projectType) then
        var retry := Query(slug, "", "");
        Fetched([first, retry], reg.projectVersions(retry))
      else Fetched([first], Ok(vs))
  }

  /** The section and version `Add` settles on. */
  datatype Choice = Choice(section: Section, version: Version)

  /** `Add`'s checks, in the order it makes them: the project lookup, the
      destination, the version lookup, an empty list, an unknown type. */
  function AddDecision(project: Result<string>, reg: Registry, mc: Minecraft, slug: string, dest: string): Result<Choice> {
    match project
    case Err(e) => Err(ProjectNotFound(slug, e))
    case Ok(pt) =>
      if dest == "" && InferDest(pt).None? then Err(CannotInferDest(pt))
      else
        var d := if dest == "" then InferDest(pt).value else dest;
        match FetchVersions(reg, slug, mc, pt, d).versions
        case Err(e) => Err(e)
        case Ok(vs) =>
          if |vs| == 0 then Err(NoCompatibleVersionsFor(slug, mc.version, mc.loader))
          else match SectionOf(pt)
               case None => Err(UnknownProjectType(pt, slug))
               case Some(sec) => Ok(Choice(sec, vs[0]))
  }

  /** A successful `Add` takes the first version of the last list fetched, and
      files the project by its type whatever destination was asked for. */
  lemma AddTakesFirst(project: Result<string>, reg: Registry, mc: Minecraft, slug: string, dest: string)
    requires AddDecision(project, reg, mc, slug, dest).Ok?
    ensures var c := AddDecision(project, reg, mc, slug, dest).value;
            var pt := project.value;
            var d := if dest == "" then InferDest(pt).value else dest;
            var f := FetchVersions(reg, slug, mc, pt, d);
            f.versions.Ok? && |f.versions.value| > 0 && c.version == f.versions.value[0]
            && SectionOf(pt) == Some(c.section)
  {
  }

  /** A project type `Add` cannot file is rejected only after the version
      lookup, and only when that lookup found something. */
  lemma AddUnknownTypeLate(project: Result<string>, reg: Registry, mc: Minecraft, slug: string, dest: string)
    requires project.Ok? && dest != "" && SectionOf(project.value).None?
    ensures var f := FetchVersions(reg, slug, mc, project.value, dest);
            |f.queries| == 1 && AddDecision(project, reg, mc, slug, dest).Err?
            && (f.versions.Ok? && |f.versions.value| > 0 ==>
                  AddDecision(project, reg, mc, slug, dest) == Err(UnknownProjectType(project.value, slug)))
  {
  }

  /** The entry a new project gets: enabled, no file recorded yet. */
  function NewEntry(slug: string, sec: Section, v: Version): Entry {
    Entry(slug, v.id, v.versionNumber, SectionDest(sec), "", "", true)
  }

  /** An existing entry re-pointed at version `v`: only its destination,
      version, version number and flag change. */
  function Refreshed(e: Entry, sec: Section, v: Version): (r: Entry)
    ensures r.slug == e.slug && r.checksum == e.checksum && r.filename == e.filename
    ensures r.dest == SectionDest(sec) && r.version == v.id && r.versionNumber == v.versionNumber && r.enable
  {
    e.(dest := SectionDest(sec), version := v.id, versionNumber := v.versionNumber, enable := true)
  }

  /** The add-or-update of one section: the first entry with the slug is
      refreshed in place, or one new entry is appended. */
  function Upserted(entries: seq<Entry>, slug: string, sec: Section, v: Version): (r: seq<Entry>)
    ensures SlugIndex(entries, slug).Some? ==>
              var i := SlugIndex(entries, slug).value;
              |r| == |entries| && r[i] == Refreshed(entries[i], sec, v)
              && forall j :: 0 <= j < |r| && j != i ==> r[j] == entries[j]
    ensures SlugIndex(entries, slug).None? ==> r == entries + [NewEntry(slug, sec, v)]
  {
    match SlugIndex(entries, slug)
    case Some(i) => entries[i := Refreshed(entries[i], sec, v)]
    case None => entries + [NewEntry(slug, sec, v)]
  }

  /** Appending an entry with another slug leaves the first match where it was. */
  lemma {:induction false} SlugIndexAppend(entries: seq<Entry>, e: Entry, slug: string)
    ensures SlugIndex(entries + [e], slug) ==
              if SlugIndex(entries, slug).Some? then SlugIndex(entries, slug)
              else if e.slug == slug then Some(|entries|)
              else None
  {
    if |entries| > 0 {
      assert (entries + [e])[1..] == entries[1..] + [e];
      SlugIndexAppend(entries[1..], e, slug);
    }
  }

  /** Re-writing an entry without changing its slug keeps every first match. */
  lemma {:induction false} SlugIndexUpdate(entries: seq<Entry>, i: nat, e: Entry, slug: string)
    requires i < |entries| && e.slug == entries[i].slug
    ensures SlugIndex(entries[i := e], slug) == SlugIndex(entries, slug)
  {
    if i > 0 {
      assert entries[i := e][1..] == entries[1..][i - 1 := e];
      SlugIndexUpdate(entries[1..], i - 1, e, slug);
    }
  }

  /** After an upsert the slug is present, enabled and at version `v`. */
  lemma UpsertedFinds(entries: seq<Entry>, slug: string, sec: Section, v: Version)
    ensures var r := Upserted(entries, slug, sec, v);
            SlugIndex(r, slug).Some?
            && r[SlugIndex(r, slug).value].enable
            && r[SlugIndex(r, slug).value].version == v.id
  {
    match SlugIndex(entries, slug)
    case Some(i) => SlugIndexUpdate(entries, i, Refreshed(entries[i], sec, v), slug);
    case None => SlugIndexAppend(entries, NewEntry(slug, sec, v), slug);
  }

  /** Adding the same version twice is the same as adding it once. */
  lemma UpsertIdempotent(entries: seq<Entry>, slug: string, sec: Section, v: Version)
    ensures Upserted(Upserted(entries, slug, sec, v), slug, sec, v) == Upserted(entries, slug, sec, v)
  {
    var once := Upserted(entries, slug, sec, v);
    match SlugIndex(entries, slug)
    case Some(i) =>
      SlugIndexUpdate(entries, i, Refreshed(entries[i], sec, v), slug);
      assert Refreshed(once[i], sec, v) == once[i];
    case None =>
      SlugIndexAppend(entries, NewEntry(slug, sec, v), slug);
      assert Refreshed(once[|entries|], sec, v) == once[|entries|];
  }
}
