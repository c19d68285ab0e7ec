/** The `search` command's request and how it groups the hits
    (cmd/search.go). */
module SearchCommand {
  import opened Results
  import opened Seqs
  import opened Url
  import opened ManifestTypes
  import ModrinthSearch

  /** The part of a search hit the command looks at. */
  datatype Project = Project(slug: string, title: string, projectType: string,
                             categories: seq<string>, versions: seq<string>)

  /** The command's flags. `offset` is the page variable: it starts at 1 and
      its `--page` flag is commented out, so the program always runs with
      `InitialOffset`; the model keeps it as a field so that the arithmetic
      on it stays visible. */
  datatype SearchFlags = SearchFlags(includeMods: bool, includeResourcePacks: bool, includeShaders: bool,
                                     limit: int, offset: int)

  /** The value the page variable is initialised with, and the only one the
      program ever runs with. */
  const InitialOffset: int := 1

  /** `contains`. */
  method Contains(slice: seq<string>, item: string) returns (found: bool)
    ensures found <==> item in slice
  {
    for i := 0 to |slice|
      invariant item !in slice[..i]
    {
      if slice[i] == item {
        return true;
      }
    }
    assert slice[..|slice|] == slice;
    return false;
  }

  /** The project-type filter: mod, resourcepack, shader, for the flags set. */
  method ProjectTypes(f: SearchFlags) returns (types: seq<string>)
    ensures types == (if f.includeMods then ["mod"] else [])
                     + (if f.includeResourcePacks then ["resourcepack"] else [])
                     + (if f.includeShaders then ["shader"] else [])
    ensures types == [] <==> !f.includeMods && !f.includeResourcePacks && !f.includeShaders
  {
    types := [];
    if f.includeMods {
      types := types + ["mod"];
    }
    if f.includeResourcePacks {
      types := types + ["resourcepack"];
    }
    if f.includeShaders {
      types := types + ["shader"];
    }
  }

  /** The request `search` sends: the manifest's game version, the chosen
      types, never the loader, and the page turned into an offset. */
  method Request(args: seq<string>, f: SearchFlags, mc: Minecraft) returns (r: Result<ModrinthSearch.SearchParams>)
    ensures |args| == 0 <==> r.Err?
    ensures r.Err? ==> r.error == NoSearchQuery
    ensures r.Ok? ==> var p := r.value;
              p.query == args[0] && p.offset == f.offset - 1 && p.limit == f.limit
              && p.facets.minecraftVersion == mc.version && p.facets.loader == "" && p.facets.category == []
              && p.facets.projectType == (if f.includeMods then ["mod"] else [])
                                         + (if f.includeResourcePacks then ["resourcepack"] else [])
                                         + (if f.includeShaders then ["shader"] else [])
              && (p.facets.projectType == [] <==> !f.includeMods && !f.includeResourcePacks && !f.includeShaders)
    ensures r.Ok? && f.offset == InitialOffset ==> r.value.offset == 0
  {
    if |args| == 0 {
      return Err(NoSearchQuery);
    }
    var types := ProjectTypes(f);
    var facets := ModrinthSearch.Facets([], "", mc.version, []);
    if |types| > 0 {
      facets := facets.(projectType := types);
    }
    return Ok(ModrinthSearch.SearchParams(args[0], facets, f.offset - 1, f.limit));
  }

  /** The query string of the request: with the default page no offset is
      sent, and there is always a facet group for the game version when the
      manifest names one. */
  method RequestValues(args: seq<string>, f: SearchFlags, mc: Minecraft) returns (r: Result<Values>)
    ensures r.Err? <==> |args| == 0
    ensures r.Ok? ==> ("offset" in r.value <==> f.offset > InitialOffset)
    ensures r.Ok? && f.offset == InitialOffset ==> "offset" !in r.value
    ensures r.Ok? ==> ("query" in r.value <==> args[0] != "")
    ensures r.Ok? ==> ("facets" in r.value <==>
                         f.includeMods || f.includeResourcePacks || f.includeShaders || mc.version != "")
  {
    var p := Request(args, f, mc);
    if p.Err? {
      return Err(p.error);
    }
    ModrinthSearch.FacetsPresent(p.value.facets);
    var v := ModrinthSearch.Values(p.value);
    return Ok(v);
  }

  /** A mod hit is listed when it supports the manifest's loader and game
      version. */
  predicate ModFits(mc: Minecraft, hit: Project) {
    mc.loader in hit.categories && mc.version in hit.versions
  }

  predicate IsMod(mc: Minecraft, hit: Project) {
    hit.projectType == "mod" && ModFits(mc, hit)
  }

  predicate IsPack(hit: Project) {
    hit.projectType == "resourcepack"
  }

  predicate IsShader(hit: Project) {
    hit.projectType == "shader"
  }

  datatype Groups = Groups(mods: seq<Project>, packs: seq<Project>, shaders: seq<Project>)

  /** The `switch` on one hit: it joins the group of its type, a mod only
      when it fits, and any other type is dropped. */
  method AddHit(g: Groups, hit: Project, mc: Minecraft) returns (next: Groups)
    ensures next.mods == g.mods + (if IsMod(mc, hit) then [hit] else [])
    ensures next.packs == g.packs + (if IsPack(hit) then [hit] else [])
    ensures next.shaders == g.shaders + (if IsShader(hit) then [hit] else [])
  {
    next := g;
    match hit.projectType
    case "mod" =>
      var hasLoader := Contains(hit.categories, mc.loader);
      var hasVersion := Contains(hit.versions, mc.version);
      if hasLoader && hasVersion {
        next := next.(mods := g.mods + [hit]);
      }
    case "resourcepack" =>
      next := next.(packs := g.packs + [hit]);
    case "shader" =>
      next := next.(shaders := g.shaders + [hit]);
    case _ =>
  }

  /** The grouping loop; no hits at all is an error. */
  method GroupHits(query: string, hits: seq<Project>, mc: Minecraft) returns (r: Result<Groups>)
    ensures |hits| == 0 <==> r.Err?
    ensures r.Err? ==> r.error == NoResults(query)
    ensures r.Ok? ==> r.value.mods == Filter(hits, h => IsMod(mc, h))
    ensures r.Ok? ==> r.value.packs == Filter(hits, IsPack)
    ensures r.Ok? ==> r.value.shaders == Filter(hits, IsShader)
  {
    if |hits| == 0 {
      return Err(NoResults(query));
    }
    var isMod := h => IsMod(mc, h);
    var g := Groups([], [], []);
    for i := 0 to |hits|
      invariant g.mods == Filter(hits[..i], isMod)
      invariant g.packs == Filter(hits[..i], IsPack)
      invariant g.shaders == Filter(hits[..i], IsShader)
    {
      assert hits[..i + 1] == hits[..i] + [hits[i]];
      FilterSnoc(hits[..i], hits[i], isMod);
      FilterSnoc(hits[..i], hits[i], IsPack);
      FilterSnoc(hits[..i], hits[i], IsShader);
      g := AddHit(g, hits[i], mc);
    }
    assert hits[..|hits|] == hits;
    return Ok(g);
  }

  /** Each hit lands in at most one group: the groups share no hit, and
      together they never hold more hits than there were. */
  lemma {:induction false} GroupsPartition(hits: seq<Project>, mc: Minecraft)
    ensures var mods, packs, shaders := Filter(hits, h => IsMod(mc, h)), Filter(hits, IsPack), Filter(hits, IsShader);
            (forall h :: h in mods ==> h !in packs && h !in shaders)
            && (forall h :: h in packs ==> h !in shaders)
    ensures |Filter(hits, h => IsMod(mc, h))| + |Filter(hits, IsPack)| + |Filter(hits, IsShader)| <= |hits|
  {
    if |hits| > 0 {
      GroupsPartition(hits[1..], mc);
    }
  }
}
