/** The serverless search endpoint: a process-wide copy of the repository index kept
    for an hour, and a query pipeline of filter, starts-with-first stable sort, a cap
    of 20 and projection to a compact result. */
module Search {
  import opened Wrappers
  import Seqs
  import Text

  const RepoUrl: string := "https://f-droid.org/repo/"
  /** The index the handler fetches; what the fetch yields is the `index` parameter of
      `Handle`, so this constant is kept only as the address it stands for. */
  const IndexUrl: string := "https://f-droid.org/repo/index-v1.json"

  /** Milliseconds after which the cached index is stale (3600 * 1000). */
  const StaleAfterMs: int := 3600 * 1000

  /** Most results returned. */
  const MaxResults: nat := 20

  /** One entry of the index's `apps` array as the endpoint reads it. A field that is
      absent (or null) is `None`; `suggestedVersionCode` holds the text its value has
      when placed in a template string. */
  datatype WebApp = WebApp(
    name: Option<string>,
    packageName: Option<string>,
    summary: Option<string>,
    icon: Option<string>,
    suggestedVersionName: Option<string>,
    suggestedVersionCode: Option<string>)

  /** The compact record returned per app; `None` fields are left out of the JSON. */
  datatype SearchResult = SearchResult(
    name: Option<string>,
    id: Option<string>,
    icon: string,
    summary: string,
    version: string,
    apkUrl: string)

  datatype Body = ErrorBody(error: string) | ResultsBody(results: seq<SearchResult>)

  datatype Response = Response(status: int, body: Body)

  /** `x || ""`: the string, or empty when absent. */
  function OrEmpty(x: Option<string>): string
  {
    match x
    case Some(s) => s
    case None => ""
  }

  /** `${x}` in a template string: an absent value is written as "undefined". */
  function Interpolate(x: Option<string>): string
  {
    match x
    case Some(s) => s
    case None => "undefined"
  }

  /** The filter predicate: the lowercased name, package or summary contains the
      lowercased query `ql`. */
  predicate Matches(app: WebApp, ql: string): (r: bool)
    ensures r <==>
      || (exists i :: Text.OccursAt(Text.Lower(OrEmpty(app.name)), ql, i))
      || (exists i :: Text.OccursAt(Text.Lower(OrEmpty(app.packageName)), ql, i))
      || (exists i :: Text.OccursAt(Text.Lower(OrEmpty(app.summary)), ql, i))
  {
    Text.ContainsIff(Text.Lower(OrEmpty(app.name)), ql);
    Text.ContainsIff(Text.Lower(OrEmpty(app.packageName)), ql);
    Text.ContainsIff(Text.Lower(OrEmpty(app.summary)), ql);
    || Text.Contains(Text.Lower(OrEmpty(app.name)), ql)
    || Text.Contains(Text.Lower(OrEmpty(app.packageName)), ql)
    || Text.Contains(Text.Lower(OrEmpty(app.summary)), ql)
  }

  function MatchesQuery(ql: string): WebApp -> bool
  {
    app => Matches(app, ql)
  }

  predicate NameStartsWith(app: WebApp, ql: string)
  {
    Text.StartsWith(Text.Lower(OrEmpty(app.name)), ql)
  }

  /** The sort comparator: an app whose name starts with the query goes first; every
      other pair is a tie. */
  function Compare(a: WebApp, b: WebApp, ql: string): (r: int)
    ensures r == StartsKey(ql)(b) - StartsKey(ql)(a)
  {
    var startsA := NameStartsWith(a, ql);
    var startsB := NameStartsWith(b, ql);
    if startsA && !startsB then -1
    else if !startsA && startsB then 1
    else 0
  }

  /** The rank the comparator sorts by, largest first. */
  function StartsKey(ql: string): WebApp -> int
  {
    app => if NameStartsWith(app, ql) then 1 else 0
  }

  /** The comparator orders apps exactly as their rank does, in descending order, so a
      stable sort with it is the stable descending sort by rank. */
  lemma CompareIsRankOrder(a: WebApp, b: WebApp, ql: string)
    ensures Compare(a, b, ql) < 0 <==> StartsKey(ql)(a) > StartsKey(ql)(b)
    ensures Compare(a, b, ql) > 0 <==> StartsKey(ql)(a) < StartsKey(ql)(b)
    ensures Compare(a, b, ql) == -Compare(b, a, ql)
  {
  }

  /** `cachedApps.filter(...)` */
  function Filtered(apps: seq<WebApp>, ql: string): seq<WebApp>
  {
    Seqs.Filter(MatchesQuery(ql), apps)
  }

  /** `results.sort(comparator)`: the array sort is stable. */
  function Ordered(results: seq<WebApp>, ql: string): seq<WebApp>
  {
    Seqs.SortByKeyDesc(StartsKey(ql), results)
  }

  /** The apps that survive filtering, ordering and `slice(0, 20)`: a prefix of the
      ordered matches, 20 of them when there are more, and all of them otherwise. */
  function Ranked(apps: seq<WebApp>, q: string): (r: seq<WebApp>)
    ensures var ql := Text.Lower(q);
      var filtered := Filtered(apps, ql);
      var ordered := Ordered(filtered, ql);
      && |r| == (if |filtered| < MaxResults then |filtered| else MaxResults)
      && |r| <= |ordered| && r == ordered[..|r|]
      && (|filtered| <= MaxResults ==> multiset(r) == multiset(filtered))
  {
    var ql := Text.Lower(q);
    var filtered := Filtered(apps, ql);
    var ordered := Ordered(filtered, ql);
    Seqs.SortByKeyDescSpec(StartsKey(ql), filtered);
    assert |ordered| == |filtered| by {
      assert |multiset(ordered)| == |multiset(filtered)|;
    }
    var r := Seqs.Take(MaxResults, ordered);
    assert r == ordered[..|r|];
    r
  }

  /** The per-app projection of the result mapping. */
  function Project(app: WebApp): (r: SearchResult)
    ensures r.name == app.name && r.id == app.packageName
    ensures r.version == if app.suggestedVersionName.None? || app.suggestedVersionName == Some("") then "Latest"
                         else app.suggestedVersionName.value
    ensures r.summary == OrEmpty(app.summary)
    ensures r.icon == RepoUrl + Interpolate(app.icon)
    ensures r.apkUrl == RepoUrl + Interpolate(app.packageName) + "_" + Interpolate(app.suggestedVersionCode) + ".apk"
  {
    SearchResult(
      app.name,
      app.packageName,
      RepoUrl + Interpolate(app.icon),
      OrEmpty(app.summary),
      if OrEmpty(app.suggestedVersionName) == "" then "Latest" else app.suggestedVersionName.value,
      RepoUrl + Interpolate(app.packageName) + "_" + Interpolate(app.suggestedVersionCode) + ".apk")
  }

  /** The body of a successful search over the cached `apps`. */
  function SearchResults(apps: seq<WebApp>, q: string): (r: seq<SearchResult>)
    ensures |r| == |Ranked(apps, q)| && |r| <= MaxResults
    ensures forall i :: 0 <= i < |r| ==> r[i] == Project(Ranked(apps, q)[i])
  {
    var ranked := Ranked(apps, q);
    seq(|ranked|, i requires 0 <= i < |ranked| => Project(ranked[i]))
  }

  /** Soundness: every ranked app is a cached app matching the lowercased query. */
  lemma RankedSound(apps: seq<WebApp>, q: string)
    ensures forall i :: 0 <= i < |Ranked(apps, q)| ==>
      Ranked(apps, q)[i] in apps && Matches(Ranked(apps, q)[i], Text.Lower(q))
  {
    var ql := Text.Lower(q);
    var filtered := Filtered(apps, ql);
    var ordered := Ordered(filtered, ql);
    Seqs.FilterSound(MatchesQuery(ql), apps);
    Seqs.SortByKeyDescSpec(StartsKey(ql), filtered);
    forall i | 0 <= i < |Ranked(apps, q)|
      ensures Ranked(apps, q)[i] in apps && Matches(Ranked(apps, q)[i], Text.Lower(q))
    {
      var x := ordered[i];
      assert x in multiset(ordered);
      assert x in filtered;
      var j :| 0 <= j < |filtered| && filtered[j] == x;
    }
  }

  /** The filter keeps exactly the matching cached apps, in their cached order. */
  lemma FilteredExactly(apps: seq<WebApp>, ql: string)
    ensures forall app :: app in Filtered(apps, ql) <==> app in apps && Matches(app, ql)
    ensures Seqs.IsSubseq(Filtered(apps, ql), apps)
  {
    Seqs.FilterSound(MatchesQuery(ql), apps);
    Seqs.FilterSubseq(MatchesQuery(ql), apps);
    forall app | app in apps && Matches(app, ql) ensures app in Filtered(apps, ql) {
      Seqs.FilterComplete(MatchesQuery(ql), apps, app);
    }
  }

  /** Ordering: no app whose name does not start with the query precedes one whose name
      does, and within each of the two groups the filtered order is kept. */
  lemma OrderedSpec(results: seq<WebApp>, ql: string)
    ensures var o := Ordered(results, ql);
      && (forall i, j :: 0 <= i < j < |o| ==> Compare(o[i], o[j], ql) <= 0)
      && multiset(o) == multiset(results)
      && Seqs.Filter(Seqs.HasKey(StartsKey(ql), 1), o) == Seqs.Filter(Seqs.HasKey(StartsKey(ql), 1), results)
      && Seqs.Filter(Seqs.HasKey(StartsKey(ql), 0), o) == Seqs.Filter(Seqs.HasKey(StartsKey(ql), 0), results)
  {
    var o := Ordered(results, ql);
    Seqs.SortByKeyDescSpec(StartsKey(ql), results);
    forall i, j | 0 <= i < j < |o| ensures Compare(o[i], o[j], ql) <= 0 {
      CompareIsRankOrder(o[i], o[j], ql);
    }
  }

  /** Completeness below the cap: with at most 20 matches, every matching cached app
      is among the results. */
  lemma RankedComplete(apps: seq<WebApp>, q: string, app: WebApp)
    requires |Filtered(apps, Text.Lower(q))| <= MaxResults
    requires app in apps && Matches(app, Text.Lower(q))
    ensures app in Ranked(apps, q)
  {
    var ql := Text.Lower(q);
    FilteredExactly(apps, ql);
    assert app in multiset(Filtered(apps, ql));
  }

  /** Every returned record is the projection of a cached app that matches the query. */
  lemma SearchResultsSound(apps: seq<WebApp>, q: string, i: nat)
    requires i < |SearchResults(apps, q)|
    ensures exists app :: app in apps && Matches(app, Text.Lower(q)) && SearchResults(apps, q)[i] == Project(app)
  {
    RankedSound(apps, q);
    var app := Ranked(apps, q)[i];
    assert app in apps && Matches(app, Text.Lower(q));
    assert SearchResults(apps, q)[i] == Project(app);
  }

  /** Query "cal": "Calculator" (name starts with it) comes before "Local Files" (name
      contains it). */
  lemma CalculatorFirst()
    ensures var calculator := WebApp(Some("Calculator"), Some("org.calc"), None, None, None, None);
      var localFiles := WebApp(Some("Local Files"), Some("com.files"), None, None, None, None);
      Ranked([localFiles, calculator], "cal") == [calculator, localFiles]
  {
    var calculator := WebApp(Some("Calculator"), Some("org.calc"), None, None, None, None);
    var localFiles := WebApp(Some("Local Files"), Some("com.files"), None, None, None, None);
    var ql := Text.Lower("cal");
    assert ql == "cal" by {
      assert |ql| == 3 && ql[0] == 'c' && ql[1] == 'a' && ql[2] == 'l';
    }
    var apps := [localFiles, calculator];
    var key := StartsKey(ql);
    assert Filtered(apps, ql) == apps by {
      var nameL := Text.Lower("Local Files");
      assert nameL[2..5] == ql by {
        assert nameL[2] == 'c' && nameL[3] == 'a' && nameL[4] == 'l';
      }
      Text.OccursAtContains(nameL, ql, 2);
      var nameC := Text.Lower("Calculator");
      assert nameC[..3] == ql by {
        assert nameC[0] == 'c' && nameC[1] == 'a' && nameC[2] == 'l';
      }
      assert Matches(localFiles, ql) && Matches(calculator, ql);
      Seqs.FilterAll(MatchesQuery(ql), apps);
    }
    assert key(calculator) == 1 && key(localFiles) == 0 by {
      var nameC, nameL := Text.Lower("Calculator"), Text.Lower("Local Files");
      assert nameC[..3] == ql by {
        assert nameC[0] == 'c' && nameC[1] == 'a' && nameC[2] == 'l';
      }
      assert NameStartsWith(calculator, ql);
      assert !NameStartsWith(localFiles, ql) by {
        assert nameL[0] != ql[0];
      }
    }
    assert Ordered(apps, ql) == [calculator, localFiles] by {
      assert Seqs.SortByKeyDesc(key, [calculator]) == [calculator] by {
        assert [calculator][1..] == [];
      }
      assert Seqs.SortByKeyDesc(key, apps) == Seqs.Insert(key, localFiles, [calculator]) by {
        assert apps[1..] == [calculator];
      }
      assert Seqs.Insert(key, localFiles, [calculator]) == [calculator] + Seqs.Insert(key, localFiles, []) by {
        assert [calculator][1..] == [];
      }
    }
  }

  /** The cache needs a refresh when it is unset or older than the staleness window. */
  predicate NeedsRefresh(cached: Option<seq<WebApp>>, lastFetchTime: int, now: int): (r: bool)
    ensures cached.None? ==> r
    ensures cached.Some? ==> (r <==> now > lastFetchTime + 3_600_000)
  {
    cached.None? || now - lastFetchTime > StaleAfterMs
  }

  /** `data.apps || []` */
  function AppsOrEmpty(apps: Option<seq<WebApp>>): seq<WebApp>
  {
    match apps
    case Some(a) => a
    case None => []
  }

  /** The module-level cache (`cachedApps`, `lastFetchTime`) and the request handler. */
  class SearchCache {
    var cachedApps: Option<seq<WebApp>>
    var lastFetchTime: int

    constructor ()
      ensures cachedApps == None && lastFetchTime == 0
    {
      cachedApps := None;
      lastFetchTime := 0;
    }

    predicate IsStale(now: int)
      reads this
    {
      NeedsRefresh(cachedApps, lastFetchTime, now)
    }

    /** `handler` for query parameter `q` at clock value `now`; `index` is what fetching
        and parsing the index yields if the handler fetches it, and is ignored otherwise. */
    method Handle(q: Option<string>, now: int, index: Fetch<Option<seq<WebApp>>>) returns (resp: Response)
      modifies this
      ensures q.None? || q == Some("") ==>
        resp == Response(400, ErrorBody("Missing query parameter")) && unchanged(this)
      ensures q.Some? && q != Some("") && old(IsStale(now)) && index.FetchFailed? ==>
        resp == Response(500, ErrorBody("Internal Server Error")) && unchanged(this)
      ensures q.Some? && q != Some("") && old(IsStale(now)) && index.Fetched? ==>
        && cachedApps == Some(AppsOrEmpty(index.data)) && lastFetchTime == now
        && resp == Response(200, ResultsBody(SearchResults(AppsOrEmpty(index.data), q.value)))
      ensures q.Some? && q != Some("") && !old(IsStale(now)) ==>
        && unchanged(this)
        && resp == Response(200, ResultsBody(SearchResults(cachedApps.value, q.value)))
    {
      if q.None? || q.value == "" {
        return Response(400, ErrorBody("Missing query parameter"));
      }
      if IsStale(now) {
        match index
        case FetchFailed =>
          return Response(500, ErrorBody("Internal Server Error"));
        case Fetched(data) =>
          cachedApps := Some(AppsOrEmpty(data));
          lastFetchTime := now;
      }
      resp := Response(200, ResultsBody(SearchResults(cachedApps.value, q.value)));
    }
  }

  /** Two requests for the same query while the cache stays fresh get the same answer,
      and neither uses what a fetch would have returned. */
  method RepeatedSearch(cache: SearchCache, q: string, now1: int, now2: int,
                        index1: Fetch<Option<seq<WebApp>>>, index2: Fetch<Option<seq<WebApp>>>)
    returns (r1: Response, r2: Response)
    requires q != "" && cache.cachedApps.Some?
    requires cache.lastFetchTime <= now1 <= now2 && now2 - cache.lastFetchTime <= StaleAfterMs
    modifies cache
    ensures r1 == r2 && r1.status == 200
    ensures cache.cachedApps == old(cache.cachedApps) && cache.lastFetchTime == old(cache.lastFetchTime)
  {
    r1 := cache.Handle(Some(q), now1, index1);
    r2 := cache.Handle(Some(q), now2, index2);
  }
}
