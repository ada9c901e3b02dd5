# F-Droid wearable storefront: verified model of the core logic

This project models three small pieces of logic, with their specifications proved in Dafny:

- **The search endpoint.** This is a serverless handler (`api/search.js`). It keeps the F-Droid repository index in a process-wide cache for one hour. For each query it filters the cached apps by case-insensitive substring. It then stable-sorts them so that apps whose name starts with the query come first, keeps 20, and maps each one to a compact record with built URLs.
- **The Android client's app record.** This is `FDroidAppDto` in `RepoModels.kt`, together with its getters. It resolves text from a field that is either a plain string or a locale map, preferring `tr`, `tr-TR`, `en-US`, `en`, `default`, then the first primitive entry. It gives the display name and summary their fallbacks. It builds the icon and APK URLs from a base URL with its trailing slashes trimmed.
- **The Android list screen's view model.** This is `MainViewModel.kt`. It derives the screen state (`Loading`, or `Success` with the whole list or the filtered list) from the app list and the search text. A refresh keeps the 100 most recently updated apps, newest first. Selection looks an app up by package name and resets the download state.

Modules:

| file | module | models |
|---|---|---|
| `wrappers.dfy` | `Wrappers` | `Option` (null / undefined) and `Fetch` (the outcome of a network fetch) |
| `seqs.dfy` | `Seqs` | the library calls `filter`, `find`, `take`/`slice` and stable sort by key, with their properties |
| `text.dfy` | `Text` | `toLowerCase`, `includes`/`contains`, `startsWith`, Kotlin `isBlank`, `trimEnd`, integer `toString` |
| `repo_models.dfy` | `RepoModels` | `FDroidAppDto` and its getters |
| `main_view_model.dfy` | `MainViewModel` | `UiState`, the `uiState` combine, the `MainViewModel` class |
| `search.dfy` | `Search` | the search pipeline and the `cachedApps`/`lastFetchTime` cache with its `handler` |

The pure parts are functions, with the properties the source promises proved as lemmas. The state the sources change in place is held in classes:

- `Search.SearchCache` holds `cachedApps` and `lastFetchTime`.
- `MainViewModel.ViewModel` holds the five state flows.

Their methods state the whole new state.

The inputs that come from outside the model are method parameters:

- **The clock.** `Date.now()` is the `now` parameter of `Handle`.
- **The fetched index.** It is a `Fetch` value given to `Handle` (search endpoint) and to `RefreshRepo` (Android client). `Handle` uses it only when the cache needs a refresh.

Behaviour of the search handler worth noting:

- **HTTP errors from the index.** `fetch` does not fail on an HTTP error status. If the error body parses as JSON, the handler stores `data.apps || []` (usually `[]`) and resets the clock. So `Handle` takes `Fetched(None)` for a JSON body without `apps`. A network failure, a body that is not JSON, and a JSON `null` body (reading `data.apps` then throws) give status 500 with the cache unchanged; `FetchFailed` stands for these three. The other ways the handler reaches status 500 are listed under "Left out".
- **The name field.** The search endpoint matches on the raw `name` field. It does not resolve a locale map, and it matches on the summary as well.
- **Absent fields in URLs.** An absent `icon`, `packageName` or `suggestedVersionCode` is written as `undefined` in the built URLs, as a JavaScript template string does.

## Model

| member | source | states |
|---|---|---|
| `Search.SearchCache.constructor` | api/search.js:3-4 | the cache starts unset, with fetch time 0 |
| `Search.SearchCache.Handle` | api/search.js:6-61 | when `q` is absent or empty: status 400 with the error body, and the cache is unchanged. When the cache needs a refresh and the fetch fails: status 500, and the cache is unchanged. When the fetch succeeds: the cache becomes `data.apps` (or `[]`) fetched at `now`, and status 200 carries the search over it. When the cache is fresh: the cache is unchanged, the fetch outcome is ignored, and status 200 carries the search over the cached apps |
| `Search.RepeatedSearch` | api/search.js:16-21 | two requests while the cache stays fresh perform no refresh and get identical 200 answers |
| `Search.FilteredExactly` | api/search.js:25-33 | the filter keeps exactly the cached apps whose lowercased name, package or summary contains the lowercased query (sound and complete), as a subsequence of the cache |
| `Search.Matches` | api/search.js:25-33 | an app matches exactly when the lowercased query occurs at some position of its lowercased name, package name or summary, an absent field counting as `""` |
| `Search.CompareIsRankOrder` | api/search.js:35-45 | the comparator is −1 exactly when only the first name starts with the query, and +1 exactly when only the second does; it is antisymmetric, so a stable sort with it is the stable descending sort by that rank |
| `Search.Compare` | api/search.js:35-45 | the comparator's value is the second app's starts-with rank minus the first's (rank 1 when the lowercased name starts with the query, else 0) |
| `Search.OrderedSpec` | api/search.js:35-45 | after sorting, no app whose name does not start with the query precedes one whose name does. The result is a permutation of the filtered apps. Within each group the filtered order is kept |
| `Search.RankedSound` | api/search.js:23-47 | every returned app is a cached app that matches the lowercased query |
| `Search.Ranked` | api/search.js:23-47 | the returned apps are a prefix of the sorted matches: exactly 20 when there are more than 20 matches, otherwise all of them (the same apps with the same multiplicities) |
| `Search.RankedComplete` | api/search.js:25-47 | with at most 20 matches, every matching cached app is returned |
| `Search.Project` | api/search.js:47-54 | `name` and `id` are copied. `summary` is `""` when absent. `version` is `"Latest"` when the version name is absent or empty. `icon` and `apkUrl` are the repository URL followed by the icon, or by `packageName_versionCode.apk` |
| `Search.SearchResults` | api/search.js:47-54 | the body holds one projected record per returned app, in order, at most 20 |
| `Search.SearchResultsSound` | api/search.js:25-54 | every record in the body is the projection of a cached app matching the query |
| `Search.CalculatorFirst` | api/search.js:25-45 | for the query "cal", "Calculator" (its name starts with the query) comes before "Local Files" (its name only contains it), even when listed after it |
| `Search.NeedsRefresh` | api/search.js:16 | an unset cache always needs a refresh; a set one exactly when more than 3600000 ms (one hour) have passed since the last fetch |
| `Seqs.SortByKeyDescSpec` | app/src/main/java/com/alperen/fwear/presentation/MainViewModel.kt:69 | the stable descending sort by a key orders by that key and permutes its input; for every key value, the elements with that key keep their relative order |
| `Seqs.Find` | app/src/main/java/com/alperen/fwear/presentation/MainViewModel.kt:79 | `find` gives the first element satisfying the predicate, and none exactly when no element does |
| `RepoModels.Get` | app/src/main/java/com/alperen/fwear/presentation/data/RepoModels.kt:64-65 | `obj.get(key)` is absent exactly when no entry has the key, and otherwise is a value stored under the key |
| `RepoModels.PreferredText` | app/src/main/java/com/alperen/fwear/presentation/data/RepoModels.kt:62-68 | the preferred-key loop gives the value of the first listed key that is present with a primitive value, and nothing when no key qualifies |
| `RepoModels.PreferredTextFirstUsable` | app/src/main/java/com/alperen/fwear/presentation/data/RepoModels.kt:63-67 | the first qualifying key decides the result, whatever the entries' order |
| `RepoModels.FirstPrimitive` | app/src/main/java/com/alperen/fwear/presentation/data/RepoModels.kt:70-75 | the fallback loop gives the first primitive-valued entry in iteration order, and nothing when no entry is primitive |
| `RepoModels.ExtractText` | app/src/main/java/com/alperen/fwear/presentation/data/RepoModels.kt:51-81 | absent, JSON null and arrays give null; a primitive gives its text verbatim; an object gives its preferred-key text, else its first primitive entry |
| `RepoModels.ExtractTextPreferred` | app/src/main/java/com/alperen/fwear/presentation/data/RepoModels.kt:62-68 | the first usable key of `tr`, `tr-TR`, `en-US`, `en`, `default` wins over every other entry |
| `RepoModels.ExtractTextFallback` | app/src/main/java/com/alperen/fwear/presentation/data/RepoModels.kt:70-80 | with no usable preferred key, the text is the first primitive entry, and null exactly when there is none |
| `RepoModels.ExtractTextPrefersTurkish` | app/src/main/java/com/alperen/fwear/presentation/data/RepoModels.kt:62-68 | `{"en": "Foo", "tr": "Bar"}` resolves to "Bar" |
| `RepoModels.ExtractTextFirstOther` | app/src/main/java/com/alperen/fwear/presentation/data/RepoModels.kt:70-75 | `{"es": "Baz"}` resolves to "Baz" |
| `RepoModels.BestName` | app/src/main/java/com/alperen/fwear/presentation/data/RepoModels.kt:22-28 | the extracted name when it is present and not blank, otherwise the package name |
| `RepoModels.BestNameNonBlank` | app/src/main/java/com/alperen/fwear/presentation/data/RepoModels.kt:22-28 | the display name is not blank whenever the package name is not |
| `RepoModels.BestSummary` | app/src/main/java/com/alperen/fwear/presentation/data/RepoModels.kt:30-32 | a non-blank extracted summary is returned as it is |
| `RepoModels.BestSummaryFromDescription` | app/src/main/java/com/alperen/fwear/presentation/data/RepoModels.kt:34-35 | without a usable summary, a non-blank description gives its first characters (at most 100) followed by "...". That is the whole description plus "..." when it is short, and exactly 103 characters otherwise |
| `RepoModels.BestSummaryEmpty` | app/src/main/java/com/alperen/fwear/presentation/data/RepoModels.kt:30-38 | the summary is `""` exactly when neither the summary nor the description has non-blank text |
| `RepoModels.CleanBase` | app/src/main/java/com/alperen/fwear/presentation/data/RepoModels.kt:41 | the trimmed base is a prefix of the base that does not end with '/'; only '/' characters were removed |
| `RepoModels.CleanBaseIdempotent` | app/src/main/java/com/alperen/fwear/presentation/data/RepoModels.kt:47 | trimming the base twice gives the same as trimming once |
| `RepoModels.FullIconUrl` | app/src/main/java/com/alperen/fwear/presentation/data/RepoModels.kt:39-43 | `""` exactly when the icon name is null or empty; otherwise the trimmed base, "/", and the icon name |
| `RepoModels.VersionCodeText` | app/src/main/java/com/alperen/fwear/presentation/data/RepoModels.kt:46-48 | a null version code gives `""`; a known one gives a numeral (optional minus sign, then digits) that denotes that same code |
| `RepoModels.ApkUrl` | app/src/main/java/com/alperen/fwear/presentation/data/RepoModels.kt:45-49 | the URL is the trimmed base, `/`, the package name, `_`, the version-code text and `.apk`, each part at its stated position |
| `RepoModels.UrlsIgnoreTrailingSlashes` | app/src/main/java/com/alperen/fwear/presentation/data/RepoModels.kt:39-49 | any number of trailing '/' on the base URL gives the same APK and icon URLs |
| `RepoModels.RepoUrlsOnBaseUrl` | app/src/main/java/com/alperen/fwear/presentation/data/RepoModels.kt:45-49 | with the client's base URL `https://f-droid.org/repo/` (RetrofitClient.kt lines 16-18), the APK URL is that base, the package name, "_", the version code (empty when null) and ".apk", and a non-empty icon name is appended directly to the base |
| `Text.TrimEnd` | app/src/main/java/com/alperen/fwear/presentation/data/RepoModels.kt:47 | `trimEnd(c)` removes exactly the trailing run of `c`: the result is a prefix, does not end with `c`, and everything removed is `c` |
| `Text.TrimEndIgnoresTrailing` | app/src/main/java/com/alperen/fwear/presentation/data/RepoModels.kt:41 | appending more copies of the trimmed character does not change the result of `trimEnd` |
| `Text.IsBlank` | app/src/main/java/com/alperen/fwear/presentation/data/RepoModels.kt:24 | a string is blank exactly when every character is a Kotlin whitespace character; the empty string is blank |
| `Text.ContainsIff` | api/search.js:30-32 | the substring test holds exactly when the query occurs at some position |
| `Text.IntToDecimal` | app/src/main/java/com/alperen/fwear/presentation/data/RepoModels.kt:48 | the rendered version code starts with `-` exactly when it is negative, is otherwise decimal digits, and denotes the same number |
| `MainViewModel.UiStateOf` | app/src/main/java/com/alperen/fwear/presentation/MainViewModel.kt:30-42 | the state is `Loading` exactly when the list is empty, whatever the text. A blank text gives `Success` of the whole list. Otherwise every shown app matches the text. `Error` is never produced |
| `MainViewModel.MatchesSearch` | app/src/main/java/com/alperen/fwear/presentation/MainViewModel.kt:36-39 | an app matches exactly when the lowercased text occurs at some position of its lowercased best name or of its lowercased package name |
| `MainViewModel.UiStateFiltered` | app/src/main/java/com/alperen/fwear/presentation/MainViewModel.kt:36-40 | a non-blank text shows exactly the apps whose best name or package name contains it ignoring case, each as often as listed, in list order |
| `MainViewModel.LatestApps` | app/src/main/java/com/alperen/fwear/presentation/MainViewModel.kt:69 | the stored list has min(100, fetched) apps, all drawn from the fetched ones, and is a permutation of them when at most 100 were fetched |
| `MainViewModel.LatestAppsSorted` | app/src/main/java/com/alperen/fwear/presentation/MainViewModel.kt:69 | the stored list is in non-increasing order of `lastUpdated` |
| `MainViewModel.LatestAppsNewest` | app/src/main/java/com/alperen/fwear/presentation/MainViewModel.kt:69 | no fetched app left out is newer than any app kept |
| `MainViewModel.LatestAppsStable` | app/src/main/java/com/alperen/fwear/presentation/MainViewModel.kt:69 | for every update time, the kept apps with that time are the first apps with that time in fetched order, in that order; which tied apps survive the cap of 100 is thus fixed by the fetched order |
| `MainViewModel.LatestAppsStableAll` | app/src/main/java/com/alperen/fwear/presentation/MainViewModel.kt:69 | when at most 100 apps are fetched, the apps with equal `lastUpdated` all stay, in their fetched order |
| `MainViewModel.ViewModel.constructor` | app/src/main/java/com/alperen/fwear/presentation/MainViewModel.kt:25-51 | empty list, empty search text, nothing selected, progress 0, not downloading |
| `MainViewModel.ViewModel.CurrentUiState` | app/src/main/java/com/alperen/fwear/presentation/MainViewModel.kt:30-32 | the current screen state is `Loading` exactly when no apps are stored |
| `MainViewModel.ViewModel.OnSearchTextChange` | app/src/main/java/com/alperen/fwear/presentation/MainViewModel.kt:57-59 | sets the search text and changes nothing else |
| `MainViewModel.ViewModel.RefreshRepo` | app/src/main/java/com/alperen/fwear/presentation/MainViewModel.kt:61-77 | a successful fetch stores the 100 most recently updated apps (see the `LatestApps` lemmas); a failed one leaves the list unchanged; nothing else changes |
| `MainViewModel.ViewModel.SelectApp` | app/src/main/java/com/alperen/fwear/presentation/MainViewModel.kt:78-82 | selects the first stored app with the package name, or none when there is none; progress becomes 0 and downloading false; list and text are unchanged |

## Left out

- **Case folding.** Lowercasing and case-insensitive comparison map only the ASCII letters. JavaScript's `toLowerCase` and Kotlin's `ignoreCase` also fold other Unicode letters.
- **Character lengths.** Kotlin string lengths count UTF-16 code units; the model counts Unicode scalar values. This makes a difference for `take(100)` on text outside the Basic Multilingual Plane.
- **Network and JSON parsing.** Fetching and parsing the index are not modelled; their outcome is a method parameter. This applies to `fetch` and `json()` in the search endpoint and to the Retrofit client in the Android app.
- **The clock.** `Date.now()` is not modelled; it is the `now` parameter.
- **Headers and concurrency.** The `Cache-Control` header is not modelled. Neither is the race between concurrent requests that share the cache.
- Search.SearchCache.Handle: a query parameter that is not a string is not modelled. A repeated `q` arrives as an array: it passes the emptiness test, the cache may be refreshed, and then `toLowerCase` throws, so the answer is 500 with the cache already replaced. The model's `q` is a string or absent.
- Search.SearchCache.Handle: an index whose `apps` is truthy but not an array (or an array holding `null`) is not modelled. The handler stores it, resets the clock, and then `filter` or a field read throws, so the answer is 500 with the cache already replaced. The model's fetched index is absent or a sequence of app records.
- Search.SearchCache.Handle: non-string field values are not modelled. A locale map for `name`, for instance, would make `toLowerCase` throw in the source, which the catch-all turns into status 500. The model's app fields are strings or absent.
- Search.Project: JSON `null` is treated like an absent field. In the source, `${null}` renders as "null", whereas an absent field renders as "undefined". The version code is kept as the text its value has in a template string.
- **Duplicate JSON keys.** A Gson `JsonObject` holds one value per key. `RepoModels.Get` takes the first entry with the key, which is the same thing when the keys are distinct.
- **Number-to-string by Gson.** `asString` of a numeric or boolean JSON primitive is not modelled; `Prim` carries that text directly.
- **Coroutines and flows.** `viewModelScope.launch`, `stateIn` with its initial `Loading` value, and the `init` call to `refreshRepo` are not modelled. The constructor gives the initial state, and `RefreshRepo` is called with the fetch outcome. The `Log` calls are left out.
- **Downloads and installation.** This covers `startDownloadAndInstall`, `InstallManager.kt` and its floating-point progress, which rely on coroutines, polling with `delay`, and Android system services. Progress is a `real` that the model only ever sets to 0.
- **UI.** The Compose screens in `MainActivity.kt` and the decorative colour choice `getMaterialColorFor` are not modelled.
- **Unused fields.** The license default `"Unknown"` is a field of the record but is not used by any modelled operation.
