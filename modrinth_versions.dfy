/** The registry's version records, the version-list request and the
    project-URL parser (internal/modrinth/versions.go). */
module ModrinthVersions {
  import opened Results
  import opened Strings
  import opened Url

  /** One downloadable file of a version, with its advertised SHA-1. */
  datatype File = File(filename: string, url: string, primary: bool, sha1: string)

  /** One element of `/project/{slug}/version`. */
  datatype Version = Version(id: string, versionNumber: string, datePublished: string, files: seq<File>)

  /** The arguments of a version-list request; an empty filter is no filter. */
  datatype Query = Query(slug: string, gameVersion: string, loader: string)

  /** The registry's answers, taken as given: the version list for a query and
      a version by id, or the error the HTTP client reported. */
  datatype Registry = Registry(
    projectVersions: Query -> Result<seq<Version>>,
    version: string -> Result<Version>)

  /** The query parameters and path of `ProjectVersions`. A filter is sent as a
      one-element JSON array only when it is non-empty, and the slug is escaped
      into a single path segment. */
  method ProjectVersionsRequest(slug: string, gameVersion: string, loader: string)
    returns (path: string, params: Values)
    ensures "game_versions" in params <==> gameVersion != ""
    ensures "game_versions" in params ==> params["game_versions"] == ["[\"" + gameVersion + "\"]"]
    ensures "loaders" in params <==> loader != ""
    ensures "loaders" in params ==> params["loaders"] == ["[\"" + loader + "\"]"]
    ensures params.Keys <= {"game_versions", "loaders"}
    ensures path == "project/" + PathEscape(slug) + "/version"
  {
    params := map[];
    if gameVersion != "" {
      params := Add(params, "game_versions", "[\"" + gameVersion + "\"]");
    }
    if loader != "" {
      params := Add(params, "loaders", "[\"" + loader + "\"]");
    }
    path := "project/" + PathEscape(slug) + "/version";
  }

  /** The escaped slug is the whole middle segment of the request path. */
  lemma RequestPathSegments(slug: string)
    ensures var path := "project/" + PathEscape(slug) + "/version";
            var seg := path[8..|path| - 8];
            seg == PathEscape(slug) && (forall i :: 0 <= i < |seg| ==> seg[i] != '/')
  {
  }

  // ---------------------------------------------------------------------------
  // ParseSlug: `modrinth\.com/(?:mod|plugin|datapack|shaderpack|resourcepack)/([^/?#]+)`
  // searched leftmost-first.

  const Host: string := "modrinth.com/"

  /** The project kinds the pattern accepts, in the order the alternation tries them. */
  const Kinds: seq<string> := ["mod", "plugin", "datapack", "shaderpack", "resourcepack"]

  predicate IsSlugChar(c: char) {
    c != '/' && c != '?' && c != '#'
  }

  predicate Contains(s: string, c: char) {
    exists i :: 0 <= i < |s| && s[i] == c
  }

  /** Length of the longest run of slug characters starting at `i`. */
  function SlugRun(s: string, i: nat): (n: nat)
    requires i <= |s|
    ensures i + n <= |s|
    ensures forall k :: i <= k < i + n ==> IsSlugChar(s[k])
    ensures i + n == |s| || !IsSlugChar(s[i + n])
    decreases |s| - i
  {
    if i == |s| || !IsSlugChar(s[i]) then 0 else 1 + SlugRun(s, i + 1)
  }

  /** The pattern matches at `i` through the alternative `kind`: the host,
      `kind`, '/', and then at least one slug character. */
  predicate PatternAt(s: string, i: nat, kind: string)
    requires i <= |s|
  {
    HasPrefix(s[i..], Host + kind + "/") && i + |Host| + |kind| + 1 < |s|
    && IsSlugChar(s[i + |Host| + |kind| + 1])
  }

  /** The first kind `k` (in alternation order) such that `k + "/"` starts at `j`. */
  function KindAt(s: string, j: nat, kinds: seq<string>): (r: Option<string>)
    requires j <= |s|
    ensures r.Some? ==> r.value in kinds
  {
    if |kinds| == 0 then None
    else if HasPrefix(s[j..], kinds[0] + "/") then Some(kinds[0])
    else KindAt(s, j, kinds[1..])
  }

  /** The kind `KindAt` finds is followed by '/' there. */
  lemma {:induction false} KindAtSome(s: string, j: nat, kinds: seq<string>)
    requires j <= |s| && KindAt(s, j, kinds).Some?
    ensures HasPrefix(s[j..], KindAt(s, j, kinds).value + "/")
  {
    if !HasPrefix(s[j..], kinds[0] + "/") {
      KindAtSome(s, j, kinds[1..]);
    }
  }

  /** When `KindAt` finds nothing, no kind of the list is followed by '/' there. */
  lemma {:induction false} KindAtNone(s: string, j: nat, kinds: seq<string>)
    requires j <= |s| && KindAt(s, j, kinds).None?
    ensures forall k :: k in kinds ==> !HasPrefix(s[j..], k + "/")
  {
    if |kinds| > 0 {
      KindAtNone(s, j, kinds[1..]);
      assert forall k :: k in kinds ==> k == kinds[0] || k in kinds[1..];
    }
  }

  /** A kind followed by '/' at a position fixes where the kind ends. */
  lemma KindPrefixAt(s: string, j: nat, kind: string)
    requires j <= |s| && HasPrefix(s[j..], kind + "/")
    ensures j + |kind| < |s| && s[j..j + |kind|] == kind && s[j + |kind|] == '/'
  {
    assert s[j..][..|kind| + 1] == s[j..j + |kind| + 1];
    assert s[j..j + |kind|] == (kind + "/")[..|kind|];
    assert s[j + |kind|] == (kind + "/")[|kind|];
  }

  /** Two kinds of different lengths both followed by '/' put a '/' inside
      the longer one. */
  lemma SlashInLonger(t: string, a: string, b: string)
    requires HasPrefix(t, a + "/") && HasPrefix(t, b + "/") && |a| < |b|
    ensures Contains(b, '/')
  {
    assert t[|a|] == (a + "/")[|a|];
    assert t[|a|] == (b + "/")[|a|];
    assert b[|a|] == '/';
  }

  /** At most one kind of the alternation can be followed by '/' at a position,
      since no kind holds '/'. */
  lemma KindUnique(t: string, a: string, b: string)
    requires a in Kinds && b in Kinds && HasPrefix(t, a + "/") && HasPrefix(t, b + "/")
    ensures a == b
  {
    assert forall k :: k in Kinds ==> !Contains(k, '/') by {
      assert !Contains("mod", '/') && !Contains("plugin", '/') && !Contains("datapack", '/')
             && !Contains("shaderpack", '/') && !Contains("resourcepack", '/');
    }
    if |a| < |b| {
      SlashInLonger(t, a, b);
    } else if |b| < |a| {
      SlashInLonger(t, b, a);
    } else {
      assert a == (a + "/")[..|a|] == t[..|a|] == (b + "/")[..|b|] == b;
    }
  }

  /** The pattern's prefix is the host followed by the kind and '/'. */
  lemma HostKindPrefix(s: string, i: nat, kind: string)
    requires i <= |s|
    ensures HasPrefix(s[i..], Host + kind + "/")
            <==> HasPrefix(s[i..], Host) && HasPrefix(s[i + |Host|..], kind + "/")
  {
    var p := Host + kind + "/";
    if HasPrefix(s[i..], p) {
      assert s[i..][..|Host|] == p[..|Host|] == Host;
      assert s[i + |Host|..][..|kind| + 1] == s[i..][..|p|][|Host|..] == p[|Host|..] == kind + "/";
    }
    if HasPrefix(s[i..], Host) && HasPrefix(s[i + |Host|..], kind + "/") {
      assert s[i..][..|p|] == s[i..][..|Host|] + s[i + |Host|..][..|kind| + 1];
    }
  }

  /** Where the capture group of a match lies in the input. */
  datatype Span = Span(start: nat, end: nat)

  /** The capture group of a match starting at `i`, if the pattern matches there:
      `modrinth.com/`, then a kind and '/', then a maximal non-empty run of slug
      characters. */
  function MatchAt(s: string, i: nat): (r: Option<Span>)
    requires i <= |s|
    ensures r.Some? ==> i + |Host| < r.value.start < r.value.end <= |s| && s[r.value.start - 1] == '/'
  {
    if !HasPrefix(s[i..], Host) then None
    else
      match KindAt(s, i + |Host|, Kinds)
      case None => None
      case Some(kind) =>
        var start := i + |Host| + |kind| + 1;
        KindAtSome(s, i + |Host|, Kinds);
        KindPrefixAt(s, i + |Host|, kind);
        var n := SlugRun(s, start);
        if n == 0 then None else Some(Span(start, start + n))
  }

  /** `MatchAt` finds nothing exactly where no kind of the alternation lets
      the pattern match. */
  lemma MatchAtNone(s: string, i: nat)
    requires i <= |s|
    ensures MatchAt(s, i).None? <==> forall kind :: kind in Kinds ==> !PatternAt(s, i, kind)
  {
    if MatchAt(s, i).None? {
      forall kind | kind in Kinds
        ensures !PatternAt(s, i, kind)
      {
        HostKindPrefix(s, i, kind);
        if HasPrefix(s[i..], Host) && HasPrefix(s[i + |Host|..], kind + "/") {
          match KindAt(s, i + |Host|, Kinds)
          case None =>
            KindAtNone(s, i + |Host|, Kinds);
          case Some(found) =>
            KindAtSome(s, i + |Host|, Kinds);
            KindUnique(s[i + |Host|..], found, kind);
        }
      }
    } else {
      CaptureAt(s, i);
    }
  }

  /** The leftmost position at or after `i` where the pattern matches, or
      `|s| + 1` when there is none. */
  function FirstMatch(s: string, i: nat): (k: nat)
    requires i <= |s|
    ensures i <= k <= |s| + 1
    ensures k <= |s| ==> MatchAt(s, k).Some?
    decreases |s| - i
  {
    if MatchAt(s, i).Some? then i
    else if i == |s| then |s| + 1
    else FirstMatch(s, i + 1)
  }

  /** `FirstMatch` skips only positions where the pattern does not match. */
  lemma {:induction false} FirstMatchSkips(s: string, i: nat, j: nat)
    requires i <= j <= |s| && j < FirstMatch(s, i)
    ensures MatchAt(s, j).None?
    decreases |s| - i
  {
    if j > i {
      FirstMatchSkips(s, i + 1, j);
    }
  }

  /** `ParseSlug`: a bare slug (no '/') as it is; else the capture group of the
      leftmost project URL in it; else the input unchanged. */
  function ParseSlug(s: string): string {
    if !Contains(s, '/') then s
    else
      var k := FirstMatch(s, 0);
      if k <= |s| then
        var span := MatchAt(s, k).value;
        s[span.start..span.end]
      else s
  }

  /** The pattern matches nowhere before the position `FirstMatch` finds. */
  lemma NoPatternBefore(s: string, k: nat)
    requires k <= |s| && k == FirstMatch(s, 0)
    ensures forall j, kind :: 0 <= j < k && kind in Kinds ==> !PatternAt(s, j, kind)
  {
    forall j, kind | 0 <= j < k && kind in Kinds
      ensures !PatternAt(s, j, kind)
    {
      FirstMatchSkips(s, 0, j);
      MatchAtNone(s, j);
    }
  }

  /** The capture group of the pattern at `k` through `kind`: the maximal run
      of slug characters after the kind's '/'. */
  function CaptureOf(s: string, k: nat, kind: string): string
    requires k + |Host| + |kind| + 1 <= |s|
  {
    var a := k + |Host| + |kind| + 1;
    s[a..a + SlugRun(s, a)]
  }

  /** A match at `k` starts with the host, and its capture group starts just
      after the '/' of the kind `KindAt` finds there and runs to the end of the
      slug characters. */
  lemma MatchSpan(s: string, k: nat)
    requires k <= |s| && MatchAt(s, k).Some?
    ensures k + |Host| <= |s| && HasPrefix(s[k..], Host) && KindAt(s, k + |Host|, Kinds).Some?
    ensures var kind := KindAt(s, k + |Host|, Kinds).value;
            var a := k + |Host| + |kind| + 1;
            kind in Kinds && a <= |s| && MatchAt(s, k).value == Span(a, a + SlugRun(s, a))
  {
    var kind := KindAt(s, k + |Host|, Kinds).value;
    var a := k + |Host| + |kind| + 1;
    assert MatchAt(s, k).value == Span(a, a + SlugRun(s, a));
  }

  /** A match at `k` is the pattern through the kind `KindAt` finds there,
      and its capture group is the maximal slug run after that kind's '/'. */
  lemma CaptureAt(s: string, k: nat)
    requires k <= |s| && MatchAt(s, k).Some?
    ensures k + |Host| <= |s| && KindAt(s, k + |Host|, Kinds).Some?
    ensures var kind := KindAt(s, k + |Host|, Kinds).value;
            var a := k + |Host| + |kind| + 1;
            kind in Kinds && PatternAt(s, k, kind) && a <= |s|
            && MatchAt(s, k).value == Span(a, a + SlugRun(s, a))
            && s[MatchAt(s, k).value.start..MatchAt(s, k).value.end] == CaptureOf(s, k, kind)
  {
    MatchSpan(s, k);
    var kind := KindAt(s, k + |Host|, Kinds).value;
    var a := k + |Host| + |kind| + 1;
    KindAtSome(s, k + |Host|, Kinds);
    HostKindPrefix(s, k, kind);
    assert IsSlugChar(s[a]);
  }

  /** When the pattern occurs, the answer is the capture group of its leftmost
      occurrence: the pattern matches nowhere before `k`, it matches at `k`
      through some kind, and the answer is the maximal run of slug characters
      after that kind's '/', which is non-empty. */
  lemma ParseSlugMatch(s: string)
    requires FirstMatch(s, 0) <= |s|
    ensures var k := FirstMatch(s, 0);
            (forall j, kind :: 0 <= j < k && kind in Kinds ==> !PatternAt(s, j, kind))
            && exists kind :: kind in Kinds && PatternAt(s, k, kind) && ParseSlug(s) == CaptureOf(s, k, kind)
    ensures var r := ParseSlug(s);
            |r| > 0 && forall j :: 0 <= j < |r| ==> IsSlugChar(r[j])
  {
    var k := FirstMatch(s, 0);
    CaptureAt(s, k);
    var kind := KindAt(s, k + |Host|, Kinds).value;
    var span := MatchAt(s, k).value;
    ParseSlugIsCapture(s, k);
    SlugRunChars(s, span.start, span.end);
    NoPatternBefore(s, k);
  }

  /** A string holding the pattern holds '/', so `ParseSlug` returns the
      capture group of the leftmost match. */
  lemma ParseSlugIsCapture(s: string, k: nat)
    requires k == FirstMatch(s, 0) && k <= |s|
    ensures MatchAt(s, k).Some?
    ensures ParseSlug(s) == s[MatchAt(s, k).value.start..MatchAt(s, k).value.end]
  {
    MatchSlash(s, k);
  }

  /** A string in which the pattern matches holds '/'. */
  lemma MatchSlash(s: string, k: nat)
    requires k <= |s| && MatchAt(s, k).Some?
    ensures Contains(s, '/')
  {
    var p := MatchAt(s, k).value.start - 1;
    assert s[p] == '/';
  }

  lemma SlugRunChars(s: string, start: nat, end: nat)
    requires start <= end <= |s|
    requires forall k :: start <= k < end ==> IsSlugChar(s[k])
    ensures forall j :: 0 <= j < end - start ==> IsSlugChar(s[start..end][j])
  {
  }

  /** Wherever the pattern matches, `FirstMatch` finds a match at or before it. */
  lemma PatternFound(s: string, j: nat, kind: string)
    requires j <= |s| && kind in Kinds && PatternAt(s, j, kind)
    ensures FirstMatch(s, 0) <= j
  {
    MatchAtNone(s, j);
    if j < FirstMatch(s, 0) {
      FirstMatchSkips(s, 0, j);
      assert false;
    }
  }

  /** A string in which the pattern matches nowhere comes back unchanged. */
  lemma ParseSlugNoMatch(s: string)
    requires forall j, kind :: 0 <= j <= |s| && kind in Kinds ==> !PatternAt(s, j, kind)
    ensures ParseSlug(s) == s
  {
    var k := FirstMatch(s, 0);
    if k <= |s| {
      CaptureAt(s, k);
      assert false;
    }
  }

  /** A string without '/' is taken as a slug already. */
  lemma ParseSlugBare(s: string)
    requires !Contains(s, '/')
    ensures ParseSlug(s) == s
  {
  }

  /** Parsing a parsed slug changes nothing. */
  lemma ParseSlugIdempotent(s: string)
    ensures ParseSlug(ParseSlug(s)) == ParseSlug(s)
  {
    if Contains(s, '/') && FirstMatch(s, 0) <= |s| {
      ParseSlugMatch(s);
      assert !Contains(ParseSlug(s), '/');
    }
  }
}
