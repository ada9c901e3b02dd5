/** The list screen's view model: the derived UI state, the refresh that keeps the
    100 most recently updated apps, search-text changes and app selection. */
module MainViewModel {
  import opened Wrappers
  import Seqs
  import Text
  import opened RepoModels

  datatype UiState = Loading | Success(apps: seq<FDroidApp>) | Error(message: string)

  /** Most apps kept after a refresh. */
  const MaxApps: nat := 100

  /** The search filter: the display name or the package name contains the text, ignoring case. */
  predicate MatchesSearch(app: FDroidApp, text: string): (r: bool)
    ensures r <==>
      || (exists i :: Text.OccursAt(Text.Lower(BestName(app)), Text.Lower(text), i))
      || (exists i :: Text.OccursAt(Text.Lower(app.packageName), Text.Lower(text), i))
  {
    Text.ContainsIff(Text.Lower(BestName(app)), Text.Lower(text));
    Text.ContainsIff(Text.Lower(app.packageName), Text.Lower(text));
    Text.ContainsIgnoreCase(BestName(app), text) || Text.ContainsIgnoreCase(app.packageName, text)
  }

  function SearchFilter(text: string): FDroidApp -> bool
  {
    app => MatchesSearch(app, text)
  }

  /** The `combine` of the app list and the search text into the screen state. */
  function UiStateOf(apps: seq<FDroidApp>, text: string): (r: UiState)
    ensures r == Loading <==> apps == []
    ensures !r.Error?
    ensures apps != [] && Text.IsBlank(text) ==> r == Success(apps)
    ensures apps != [] && !Text.IsBlank(text) ==> r.Success? && forall i :: 0 <= i < |r.apps| ==> MatchesSearch(r.apps[i], text)
  {
    if apps == [] then Loading
    else if Text.IsBlank(text) then Success(apps)
    else Success(Seqs.Filter(SearchFilter(text), apps))
  }

  /** A non-blank search shows exactly the matching apps (each as often as listed) in
      list order. */
  lemma UiStateFiltered(apps: seq<FDroidApp>, text: string)
    requires apps != [] && !Text.IsBlank(text)
    ensures UiStateOf(apps, text).Success?
    ensures var shown := UiStateOf(apps, text).apps;
      && (forall app :: app in shown <==> app in apps && MatchesSearch(app, text))
      && (forall app :: multiset(shown)[app] == if MatchesSearch(app, text) then multiset(apps)[app] else 0)
      && Seqs.IsSubseq(shown, apps)
  {
    var p := SearchFilter(text);
    Seqs.FilterSound(p, apps);
    Seqs.FilterSubseq(p, apps);
    forall app ensures multiset(Seqs.Filter(p, apps))[app] == if MatchesSearch(app, text) then multiset(apps)[app] else 0 {
      Seqs.FilterCount(p, apps, app);
    }
  }

  function UpdatedKey(app: FDroidApp): int
  {
    app.lastUpdated
  }

  /** `sortedByDescending { it.lastUpdated }.take(100)`: at most 100 apps, all drawn
      from the fetched ones, and all of them when at most 100 were fetched. */
  function LatestApps(apps: seq<FDroidApp>): (r: seq<FDroidApp>)
    ensures |r| == if |apps| < MaxApps then |apps| else MaxApps
    ensures multiset(r) <= multiset(apps)
    ensures |apps| <= MaxApps ==> multiset(r) == multiset(apps)
  {
    var sorted := Seqs.SortByKeyDesc(UpdatedKey, apps);
    Seqs.SortByKeyDescSpec(UpdatedKey, apps);
    assert |sorted| == |apps| by {
      assert |multiset(sorted)| == |multiset(apps)|;
    }
    Seqs.Take(MaxApps, sorted)
  }

  /** The stored list is ordered newest first. */
  lemma LatestAppsSorted(apps: seq<FDroidApp>)
    ensures forall i, j :: 0 <= i < j < |LatestApps(apps)| ==>
      LatestApps(apps)[i].lastUpdated >= LatestApps(apps)[j].lastUpdated
  {
    var sorted := Seqs.SortByKeyDesc(UpdatedKey, apps);
    Seqs.SortByKeyDescSpec(UpdatedKey, apps);
    assert Seqs.SortedDesc(UpdatedKey, sorted);
  }

  /** No fetched app left out of the stored list is newer than one kept in it. */
  lemma LatestAppsNewest(apps: seq<FDroidApp>, i: nat, dropped: FDroidApp)
    requires i < |LatestApps(apps)| && dropped in multiset(apps) - multiset(LatestApps(apps))
    ensures dropped.lastUpdated <= LatestApps(apps)[i].lastUpdated
  {
    var sorted := Seqs.SortByKeyDesc(UpdatedKey, apps);
    var r := LatestApps(apps);
    Seqs.SortByKeyDescSpec(UpdatedKey, apps);
    var rest := sorted[|r|..];
    assert sorted == r + rest;
    assert multiset(sorted) == multiset(r) + multiset(rest);
    assert dropped in multiset(rest);
    var j :| 0 <= j < |rest| && rest[j] == dropped;
    assert sorted[|r| + j] == dropped;
    assert sorted[i] == r[i];
    assert Seqs.SortedDesc(UpdatedKey, sorted);
  }

  /** Among apps with the same update time, the kept ones are the first of them in
      fetched order, in that order (the sort is stable and `take` keeps a prefix). */
  lemma LatestAppsStable(apps: seq<FDroidApp>, k: int)
    ensures var kept := Seqs.Filter(Seqs.HasKey(UpdatedKey, k), LatestApps(apps));
      var all := Seqs.Filter(Seqs.HasKey(UpdatedKey, k), apps);
      |kept| <= |all| && kept == all[..|kept|]
  {
    var p := Seqs.HasKey(UpdatedKey, k);
    var sorted := Seqs.SortByKeyDesc(UpdatedKey, apps);
    var r := LatestApps(apps);
    Seqs.SortByKeyDescSpec(UpdatedKey, apps);
    assert |sorted| == |apps| by {
      assert |multiset(sorted)| == |multiset(apps)|;
    }
    assert sorted == r + sorted[|r|..];
    Seqs.FilterAppend(p, r, sorted[|r|..]);
    assert Seqs.Filter(p, apps) == Seqs.Filter(p, r) + Seqs.Filter(p, sorted[|r|..]);
  }

  /** When at most 100 apps are fetched, none is dropped, so every group of apps with the
      same update time keeps its whole fetched order. */
  lemma LatestAppsStableAll(apps: seq<FDroidApp>, k: int)
    requires |apps| <= MaxApps
    ensures Seqs.Filter(Seqs.HasKey(UpdatedKey, k), LatestApps(apps)) == Seqs.Filter(Seqs.HasKey(UpdatedKey, k), apps)
  {
    var sorted := Seqs.SortByKeyDesc(UpdatedKey, apps);
    Seqs.SortByKeyDescSpec(UpdatedKey, apps);
    assert LatestApps(apps) == sorted by {
      assert |multiset(sorted)| == |multiset(apps)|;
    }
  }

  /** The lookup predicate of `selectApp`: the app has the package name. */
  function HasPackage(packageName: string): FDroidApp -> bool
  {
    (app: FDroidApp) => app.packageName == packageName
  }

  /** The view model's state flows, as plain fields. */
  class ViewModel {
    var allApps: seq<FDroidApp>
    var searchText: string
    var selectedApp: Option<FDroidApp>
    var downloadProgress: real
    var isDownloading: bool

    constructor ()
      ensures allApps == [] && searchText == "" && selectedApp == None
      ensures downloadProgress == 0.0 && !isDownloading
    {
      allApps := [];
      searchText := "";
      selectedApp := None;
      downloadProgress := 0.0;
      isDownloading := false;
    }

    /** `uiState`: the screen state for the current list and search text. */
    function CurrentUiState(): (r: UiState)
      reads this
      ensures r == Loading <==> allApps == []
    {
      UiStateOf(allApps, searchText)
    }

    /** `onSearchTextChange`: replaces the search text and nothing else. */
    method OnSearchTextChange(text: string)
      modifies this
      ensures searchText == text
      ensures allApps == old(allApps) && selectedApp == old(selectedApp)
      ensures downloadProgress == old(downloadProgress) && isDownloading == old(isDownloading)
    {
      searchText := text;
    }

    /** `refreshRepo`, given the outcome of fetching the index: on success the list
        becomes the 100 most recently updated apps; on failure nothing changes. */
    method RefreshRepo(index: Fetch<seq<FDroidApp>>)
      modifies this
      ensures index.Fetched? ==> allApps == LatestApps(index.data)
      ensures index.FetchFailed? ==> allApps == old(allApps)
      ensures searchText == old(searchText) && selectedApp == old(selectedApp)
      ensures downloadProgress == old(downloadProgress) && isDownloading == old(isDownloading)
    {
      match index
      case Fetched(apps) =>
        allApps := LatestApps(apps);
      case FetchFailed =>
    }

    /** `selectApp`: selects the first listed app with the package name (or none) and
        resets the download state. */
    method SelectApp(packageName: string)
      modifies this
      ensures selectedApp.None? <==> forall i :: 0 <= i < |allApps| ==> allApps[i].packageName != packageName
      ensures selectedApp.Some? ==>
        exists i :: 0 <= i < |allApps| && allApps[i] == selectedApp.value && allApps[i].packageName == packageName
          && forall j :: 0 <= j < i ==> allApps[j].packageName != packageName
      ensures downloadProgress == 0.0 && !isDownloading
      ensures allApps == old(allApps) && searchText == old(searchText)
    {
      var p := HasPackage(packageName);
      assert forall i :: 0 <= i < |allApps| ==> (p(allApps[i]) <==> allApps[i].packageName == packageName);
      selectedApp := Seqs.Find(p, allApps);
      downloadProgress := 0.0;
      isDownloading := false;
    }
  }
}
