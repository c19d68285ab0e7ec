/** The older search request's query string (modrinth/search.go): each facet
    string is sent as its own `facets` parameter. */
module LegacySearch {
  import opened Strings
  import opened Seqs
  import opened Url

  datatype SearchParams = SearchParams(query: string, facets: seq<string>, offset: int, limit: int)

  /** One facet as a one-element JSON array. */
  function FacetValue(f: string): string {
    "[\"" + f + "\"]"
  }

  /** `SearchParams.Values`: `facets` repeats once per facet, in order. */
  method Values(p: SearchParams) returns (v: Values)
    ensures "query" in v <==> p.query != ""
    ensures "query" in v ==> v["query"] == [p.query]
    ensures "facets" in v <==> |p.facets| > 0
    ensures "facets" in v ==> v["facets"] == Map(p.facets, FacetValue)
    ensures "offset" in v <==> p.offset > 0
    ensures "offset" in v ==> v["offset"] == [Decimal(p.offset)]
    ensures "limit" in v <==> p.limit > 0
    ensures "limit" in v ==> v["limit"] == [Decimal(p.limit)]
    ensures v.Keys <= {"query", "facets", "offset", "limit"}
  {
    v := map[];
    if p.query != "" {
      v := Set(v, "query", p.query);
    }
    for i := 0 to |p.facets|
      invariant "query" in v <==> p.query != ""
      invariant "query" in v ==> v["query"] == [p.query]
      invariant "facets" in v <==> i > 0
      invariant "facets" in v ==> |v["facets"]| == i
      invariant "facets" in v ==> forall j :: 0 <= j < i ==> v["facets"][j] == FacetValue(p.facets[j])
      invariant v.Keys <= {"query", "facets"}
    {
      v := Add(v, "facets", FacetValue(p.facets[i]));
    }
    if "facets" in v {
      assert v["facets"] == Map(p.facets, FacetValue);
    }
    if p.offset > 0 {
      v := Set(v, "offset", Decimal(p.offset));
    }
    if p.limit > 0 {
      v := Set(v, "limit", Decimal(p.limit));
    }
  }
}
