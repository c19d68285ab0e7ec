/** The search request's query string (internal/modrinth/search.go): the
    facets are sent as one JSON array of arrays, where the outer array is an
    AND of its groups and each inner array an OR of its terms. */
module ModrinthSearch {
  import opened Strings
  import opened Seqs
  import opened Url

  datatype Facets = Facets(projectType: seq<string>, loader: string, minecraftVersion: string, category: seq<string>)

  datatype SearchParams = SearchParams(query: string, facets: Facets, offset: int, limit: int)

  /** The one-term group for a project type. */
  function TypeGroup(pt: string): string {
    "[\"project_type:" + pt + "\"]"
  }

  /** One quoted category term of the shared category group. */
  function CategoryTerm(c: string): string {
    "\"categories:" + c + "\""
  }

  /** The facet groups in the order `Values` builds them: one per project
      type, then the loader, then the game version, then all categories in
      one group. */
  function FacetGroups(f: Facets): (groups: seq<string>)
    ensures |groups| == |f.projectType| + (if f.loader != "" then 1 else 0)
                        + (if f.minecraftVersion != "" then 1 else 0) + (if |f.category| > 0 then 1 else 0)
    ensures forall i :: 0 <= i < |f.projectType| ==> groups[i] == TypeGroup(f.projectType[i])
    ensures f.loader != "" ==> groups[|f.projectType|] == "[\"categories:" + f.loader + "\"]"
    ensures var k := |f.projectType| + (if f.loader != "" then 1 else 0);
            f.minecraftVersion != "" ==> groups[k] == "[\"versions:" + f.minecraftVersion + "\"]"
    ensures |f.category| > 0 ==> groups[|groups| - 1] == "[" + Join(Map(f.category, CategoryTerm), ",") + "]"
  {
    Map(f.projectType, TypeGroup)
    + (if f.loader != "" then ["[\"categories:" + f.loader + "\"]"] else [])
    + (if f.minecraftVersion != "" then ["[\"versions:" + f.minecraftVersion + "\"]"] else [])
    + (if |f.category| > 0 then ["[" + Join(Map(f.category, CategoryTerm), ",") + "]"] else [])
  }

  /** There is a group exactly when some facet is set. */
  lemma FacetsPresent(f: Facets)
    ensures |FacetGroups(f)| > 0 <==>
              |f.projectType| > 0 || f.loader != "" || f.minecraftVersion != "" || |f.category| > 0
  {
  }

  /** The `facetArrays` slice of `Values`, built by appending. */
  method FacetArrays(f: Facets) returns (facetArrays: seq<string>)
    ensures facetArrays == FacetGroups(f)
  {
    facetArrays := [];
    for i := 0 to |f.projectType|
      invariant |facetArrays| == i
      invariant forall j :: 0 <= j < i ==> facetArrays[j] == TypeGroup(f.projectType[j])
    {
      facetArrays := facetArrays + [TypeGroup(f.projectType[i])];
    }
    assert facetArrays == Map(f.projectType, TypeGroup);
    if f.loader != "" {
      facetArrays := facetArrays + ["[\"categories:" + f.loader + "\"]"];
    }
    if f.minecraftVersion != "" {
      facetArrays := facetArrays + ["[\"versions:" + f.minecraftVersion + "\"]"];
    }
    if |f.category| > 0 {
      var categoryFacets: seq<string> := [];
      for i := 0 to |f.category|
        invariant |categoryFacets| == i
        invariant forall j :: 0 <= j < i ==> categoryFacets[j] == CategoryTerm(f.category[j])
      {
        categoryFacets := categoryFacets + [CategoryTerm(f.category[i])];
      }
      assert categoryFacets == Map(f.category, CategoryTerm);
      facetArrays := facetArrays + ["[" + Join(categoryFacets, ",") + "]"];
    }
  }

  /** `SearchParams.Values`. */
  method Values(p: SearchParams) returns (v: Values)
    ensures "query" in v <==> p.query != ""
    ensures "query" in v ==> v["query"] == [p.query]
    ensures "facets" in v <==> |FacetGroups(p.facets)| > 0
    ensures "facets" in v ==> v["facets"] == ["[" + Join(FacetGroups(p.facets), ",") + "]"]
    ensures "offset" in v <==> p.offset > 0
    ensures "offset" in v ==> v["offset"] == [Decimal(p.offset)]
    ensures "limit" in v <==> p.limit > 0
    ensures "limit" in v ==> v["limit"] == [Decimal(p.limit)]
    ensures v.Keys <= {"query", "facets", "offset", "limit"}
  {
    v := map[];
    if p.query != "" {
      v := Set(v, "query", p.query);
    }
    var facetArrays := FacetArrays(p.facets);
    if |facetArrays| > 0 {
      v := Set(v, "facets", "[" + Join(facetArrays, ",") + "]");
    }
    if p.offset > 0 {
      v := Set(v, "offset", Decimal(p.offset));
    }
    if p.limit > 0 {
      v := Set(v, "limit", Decimal(p.limit));
    }
  }
}
