/** The app record of the Android client (`FDroidAppDto`) and its derived getters:
    text resolution from a plain-or-localised JSON field, display-name and summary
    fallbacks, and icon / APK URL construction. */
module RepoModels {
  import opened Wrappers
  import Seqs
  import Text

  /** A parsed JSON element. A primitive carries the text `asString` yields for it
      (a string verbatim, a number or boolean as written); an object keeps its entries
      in iteration order. */
  datatype Json = Null | Prim(text: string) | Arr(items: seq<Json>) | Obj(entries: seq<(string, Json)>)

  /** The repository URL the client uses for downloads and icons. */
  const BaseUrl: string := "https://f-droid.org/repo/"
  const IconBaseUrl: string := "https://f-droid.org/repo/"

  /** Locale keys tried, in this order, before any other entry of a localised field. */
  const LanguageKeys: seq<string> := ["tr", "tr-TR", "en-US", "en", "default"]

  /** Most characters of a description used as a fallback summary. */
  const SummaryDescriptionLength: nat := 100

  /** One entry of the index's `apps` array. An absent field is `None`; a JSON `null`
      in a JSON-element field is `Some(Null)`. */
  datatype FDroidApp = FDroidApp(
    packageName: string,
    nameElement: Option<Json>,
    summaryElement: Option<Json>,
    descriptionElement: Option<Json>,
    iconName: Option<string>,
    lastUpdated: int,
    license: string,
    suggestedVersionCode: Option<int>)

  function HasName(key: string): ((string, Json)) -> bool
  {
    (e: (string, Json)) => e.0 == key
  }

  /** `obj.has(key)` / `obj.get(key)`: the value of the entry named `key`. */
  function Get(entries: seq<(string, Json)>, key: string): (r: Option<Json>)
    ensures r.None? <==> forall i :: 0 <= i < |entries| ==> entries[i].0 != key
    ensures r.Some? ==> (key, r.value) in entries
  {
    match Seqs.Find(HasName(key), entries)
    case Some(e) => Some(e.1)
    case None => None
  }

  /** The key is present and its value is a primitive. */
  predicate Usable(entries: seq<(string, Json)>, key: string)
  {
    Get(entries, key).Some? && Get(entries, key).value.Prim?
  }

  function UsableIn(entries: seq<(string, Json)>): string -> bool
  {
    key => Usable(entries, key)
  }

  /** First loop of `extractTextFrom`: the first of `keys`, in order, present with a
      primitive value (the source passes `LanguageKeys`). */
  function PreferredText(entries: seq<(string, Json)>, keys: seq<string>): (r: Option<string>)
    ensures r.None? <==> forall i :: 0 <= i < |keys| ==> !Usable(entries, keys[i])
    ensures r.Some? ==>
      exists i :: 0 <= i < |keys| && Usable(entries, keys[i])
        && Get(entries, keys[i]) == Some(Prim(r.value))
        && forall j :: 0 <= j < i ==> !Usable(entries, keys[j])
  {
    match Seqs.Find(UsableIn(entries), keys)
    case Some(key) => Some(Get(entries, key).value.text)
    case None => None
  }

  /** The first usable key, wherever its entry stands, decides the preferred text. */
  lemma PreferredTextFirstUsable(entries: seq<(string, Json)>, keys: seq<string>, i: nat)
    requires i < |keys| && Usable(entries, keys[i])
    requires forall j :: 0 <= j < i ==> !Usable(entries, keys[j])
    ensures PreferredText(entries, keys) == Some(Get(entries, keys[i]).value.text)
  {
    var r := PreferredText(entries, keys);
    var k :| 0 <= k < |keys| && Usable(entries, keys[k])
      && Get(entries, keys[k]) == Some(Prim(r.value))
      && forall j :: 0 <= j < k ==> !Usable(entries, keys[j]);
    assert k == i;
  }

  function IsPrimEntry(e: (string, Json)): bool
  {
    e.1.Prim?
  }

  /** Second loop of `extractTextFrom`: the first entry, in iteration order, whose value
      is a primitive. */
  function FirstPrimitive(entries: seq<(string, Json)>): (r: Option<string>)
    ensures r.None? <==> forall i :: 0 <= i < |entries| ==> !entries[i].1.Prim?
    ensures r.Some? ==>
      exists i :: 0 <= i < |entries| && entries[i].1 == Prim(r.value)
        && forall j :: 0 <= j < i ==> !entries[j].1.Prim?
  {
    match Seqs.Find(IsPrimEntry, entries)
    case Some(e) => Some(e.1.text)
    case None => None
  }

  /** `extractTextFrom`: the text of a plain or localised field, or `None`. */
  function ExtractText(element: Option<Json>): (r: Option<string>)
    ensures element.None? || element == Some(Null) ==> r.None?
    ensures element.Some? && element.value.Arr? ==> r.None?
    ensures forall s :: element == Some(Prim(s)) ==> r == Some(s)
    ensures element.Some? && element.value.Obj? ==>
      r == if PreferredText(element.value.entries, LanguageKeys).Some? then PreferredText(element.value.entries, LanguageKeys)
           else FirstPrimitive(element.value.entries)
  {
    match element
    case None => None
    case Some(Null) => None
    case Some(Prim(s)) => Some(s)
    case Some(Arr(_)) => None
    case Some(Obj(entries)) =>
      match PreferredText(entries, LanguageKeys)
      case Some(s) => Some(s)
      case None => FirstPrimitive(entries)
  }

  /** A preferred locale wins over every other entry: with `LanguageKeys[i]` the first
      usable key, the text is that key's value, wherever it stands among the entries. */
  lemma ExtractTextPreferred(entries: seq<(string, Json)>, i: nat)
    requires i < |LanguageKeys| && Usable(entries, LanguageKeys[i])
    requires forall j :: 0 <= j < i ==> !Usable(entries, LanguageKeys[j])
    ensures ExtractText(Some(Obj(entries))) == Some(Get(entries, LanguageKeys[i]).value.text)
  {
    PreferredTextFirstUsable(entries, LanguageKeys, i);
  }

  /** Without a usable locale key, the text is the first primitive-valued entry, or
      nothing when no entry is primitive. */
  lemma ExtractTextFallback(entries: seq<(string, Json)>)
    requires forall i :: 0 <= i < |LanguageKeys| ==> !Usable(entries, LanguageKeys[i])
    ensures var r := ExtractText(Some(Obj(entries)));
      && (r.None? <==> forall i :: 0 <= i < |entries| ==> !entries[i].1.Prim?)
      && (r.Some? ==>
            exists i :: 0 <= i < |entries| && entries[i].1 == Prim(r.value)
              && forall j :: 0 <= j < i ==> !entries[j].1.Prim?)
  {
  }

  /** A Turkish entry wins over an English one that comes before it. */
  lemma ExtractTextPrefersTurkish()
    ensures ExtractText(Some(Obj([("en", Prim("Foo")), ("tr", Prim("Bar"))]))) == Some("Bar")
  {
    var a := [("en", Prim("Foo")), ("tr", Prim("Bar"))];
    assert Get(a, "tr") == Some(Prim("Bar")) by {
      assert a[0].0 != "tr" && a[1].0 == "tr";
    }
    ExtractTextPreferred(a, 0);
  }

  /** A field with no preferred locale falls back to its first entry. */
  lemma ExtractTextFirstOther()
    ensures ExtractText(Some(Obj([("es", Prim("Baz"))]))) == Some("Baz")
  {
    var b := [("es", Prim("Baz"))];
    assert "es" != "tr" by { assert "es"[0] != "tr"[0]; }
    assert "es" != "en" by { assert "es"[1] != "en"[1]; }
    assert |"es"| != |"tr-TR"| && |"es"| != |"en-US"| && |"es"| != |"default"|;
    forall i | 0 <= i < |LanguageKeys| ensures !Usable(b, LanguageKeys[i]) {
      assert b[0].0 != LanguageKeys[i];
      assert Get(b, LanguageKeys[i]).None?;
    }
    assert PreferredText(b, LanguageKeys).None?;
    assert Seqs.Find(IsPrimEntry, b) == Some(b[0]);
  }

  /** `getBestName`: the extracted name unless it is missing or blank, else the package name. */
  function BestName(app: FDroidApp): (r: string)
    ensures ExtractText(app.nameElement).Some? && !Text.IsBlank(ExtractText(app.nameElement).value) ==>
      r == ExtractText(app.nameElement).value
    ensures ExtractText(app.nameElement).None? || Text.IsBlank(ExtractText(app.nameElement).value) ==>
      r == app.packageName
  {
    var extracted := ExtractText(app.nameElement);
    if extracted.Some? && !Text.IsBlank(extracted.value) then extracted.value else app.packageName
  }

  /** The display name is never blank when the package name is not. */
  lemma BestNameNonBlank(app: FDroidApp)
    requires !Text.IsBlank(app.packageName)
    ensures !Text.IsBlank(BestName(app))
  {
  }

  /** `getBestSummary`: the summary; else the first 100 characters of the description
      followed by "..."; else the empty string. */
  function BestSummary(app: FDroidApp): (r: string)
    ensures var summary := ExtractText(app.summaryElement);
      summary.Some? && !Text.IsBlank(summary.value) ==> r == summary.value
  {
    var summary := ExtractText(app.summaryElement);
    if summary.Some? && !Text.IsBlank(summary.value) then summary.value
    else
      var desc := ExtractText(app.descriptionElement);
      if desc.Some? && !Text.IsBlank(desc.value) then Seqs.Take(SummaryDescriptionLength, desc.value) + "..."
      else ""
  }

  /** The description fallback: a prefix of the description of at most 100 characters,
      then the ellipsis, so at most 103 characters in all. */
  lemma BestSummaryFromDescription(app: FDroidApp)
    requires var summary := ExtractText(app.summaryElement); summary.None? || Text.IsBlank(summary.value)
    requires var desc := ExtractText(app.descriptionElement); desc.Some? && !Text.IsBlank(desc.value)
    ensures var r, d := BestSummary(app), ExtractText(app.descriptionElement).value;
      && |r| <= SummaryDescriptionLength + 3 && |r| >= 4
      && r[|r| - 3..] == "..."
      && r[..|r| - 3] == d[..|r| - 3]
      && (|d| <= SummaryDescriptionLength ==> r == d + "...")
      && (|d| > SummaryDescriptionLength ==> |r| == SummaryDescriptionLength + 3)
  {
    var d := ExtractText(app.descriptionElement).value;
    var r := BestSummary(app);
    var t := Seqs.Take(SummaryDescriptionLength, d);
    assert r == t + "...";
    var i :| 0 <= i < |d| && !Text.IsWhitespace(d[i]);
    assert r[..|r| - 3] == t;
  }

  /** The summary is empty exactly when neither the summary nor the description has
      non-blank text. */
  lemma BestSummaryEmpty(app: FDroidApp)
    ensures BestSummary(app) == "" <==>
      (ExtractText(app.summaryElement).None? || Text.IsBlank(ExtractText(app.summaryElement).value)) &&
      (ExtractText(app.descriptionElement).None? || Text.IsBlank(ExtractText(app.descriptionElement).value))
  {
    var summary := ExtractText(app.summaryElement);
    if summary.Some? && !Text.IsBlank(summary.value) {
      assert summary.value != [];
    } else {
      var desc := ExtractText(app.descriptionElement);
      if desc.Some? && !Text.IsBlank(desc.value) {
        assert |BestSummary(app)| >= 3;
      }
    }
  }

  /** The base URL with every trailing '/' removed (`repoUrl.trimEnd('/')`). */
  function CleanBase(repoUrl: string): (r: string)
    ensures r == [] || r[|r| - 1] != '/'
    ensures |r| <= |repoUrl| && r == repoUrl[..|r|]
    ensures forall i :: |r| <= i < |repoUrl| ==> repoUrl[i] == '/'
  {
    Text.TrimEnd(repoUrl, '/')
  }

  /** Cleaning an already cleaned base changes nothing. */
  lemma CleanBaseIdempotent(repoUrl: string)
    ensures CleanBase(CleanBase(repoUrl)) == CleanBase(repoUrl)
  {
    Text.TrimEndIdempotent(repoUrl, '/');
  }

  /** `getFullIconUrl`: empty without an icon name, else the cleaned base, one '/', and the name. */
  function FullIconUrl(app: FDroidApp, repoUrl: string): (r: string)
    ensures app.iconName.None? || app.iconName == Some("") <==> r == ""
    ensures app.iconName.Some? && app.iconName.value != "" ==>
      r == CleanBase(repoUrl) + "/" + app.iconName.value
  {
    if app.iconName.None? || app.iconName.value == "" then "" else CleanBase(repoUrl) + "/" + app.iconName.value
  }

  /** The version-code text in an APK file name: the number, or nothing when unknown. */
  function VersionCodeText(code: Option<int>): (r: string)
    ensures code.None? <==> r == ""
    ensures code.Some? ==>
      r != [] && Text.IsDigits(if r[0] == '-' then r[1..] else r) && Text.SignedValue(r) == code.value
  {
    match code
    case Some(n) => Text.IntToDecimal(n)
    case None => ""
  }

  /** `getApkUrl`: cleaned base, '/', package name, '_', version code, ".apk". */
  function ApkUrl(app: FDroidApp, repoUrl: string): (r: string)
    ensures var base := CleanBase(repoUrl);
      && |r| == |base| + |app.packageName| + |VersionCodeText(app.suggestedVersionCode)| + 6
      && r[..|base| + 1] == base + "/"
      && r[|base| + 1..|base| + 1 + |app.packageName|] == app.packageName
      && r[|base| + 1 + |app.packageName|] == '_'
      && r[|r| - 4..] == ".apk"
      && r[|base| + 2 + |app.packageName|..|r| - 4] == VersionCodeText(app.suggestedVersionCode)
  {
    var base, code := CleanBase(repoUrl), VersionCodeText(app.suggestedVersionCode);
    var head := base + "/" + app.packageName + "_";
    var r := head + code + ".apk";
    assert r[..|head|] == head && r[|head|..|r| - 4] == code && r[|r| - 4..] == ".apk";
    assert head[..|base| + 1] == base + "/" && head[|base| + 1..|head| - 1] == app.packageName;
    r
  }

  /** Any number of '/' at the end of the base URL gives the same URLs. */
  lemma UrlsIgnoreTrailingSlashes(app: FDroidApp, repoUrl: string, n: nat)
    ensures ApkUrl(app, repoUrl + Text.Repeat('/', n)) == ApkUrl(app, repoUrl)
    ensures FullIconUrl(app, repoUrl + Text.Repeat('/', n)) == FullIconUrl(app, repoUrl)
  {
    Text.TrimEndIgnoresTrailing(repoUrl, '/', n);
  }

  /** With the repository's own base URL, whose one trailing '/' is trimmed and put back,
      the URLs are the base followed by the file name. */
  lemma RepoUrlsOnBaseUrl(app: FDroidApp)
    ensures ApkUrl(app, BaseUrl) == BaseUrl + app.packageName + "_" + VersionCodeText(app.suggestedVersionCode) + ".apk"
    ensures app.iconName.Some? && app.iconName.value != "" ==>
      FullIconUrl(app, IconBaseUrl) == IconBaseUrl + app.iconName.value
  {
    var c := CleanBase(BaseUrl);
    assert |BaseUrl| == 25 && BaseUrl[23] != '/' && BaseUrl[24] == '/';
    assert |c| == 24;
    assert c + "/" == BaseUrl;
  }
}
