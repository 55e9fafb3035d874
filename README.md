# Lens utility logic in Dafny

This project models small, self-contained pieces of logic from the Lens
Kubernetes desktop application, and proves what they promise:

- `TypeNarrowing`: the runtime type guards that check dynamic values received over IPC.
  - Guards: own properties, typed and optional properties, records, typed arrays and tuples.
  - Combinators: unions of guards, and guards with bound arguments.
  - Values are JavaScript values: undefined, null, booleans, numbers, strings, arrays and plain objects.
- `ParseQuery`: `getBoolean`, which reads a flag from a URL query.
- `BuildUrl`: `buildURL` and `buildURLPositional`, which assemble a URL from these parts:
  - a compiled path template;
  - an optional encoded query;
  - an optional fragment.
- `HelmReleases`: the getters of a Helm release.
  - `getId`, `getName` and `getNs`.
  - `getVersion`: its regular expression is written out as an explicit scan, following JavaScript's rules for ".", `\d`, `[^-]`, lookbehind and "$".
  - `getChart`: in its corrected form, which removes the version literally.
  - `getRevision`: as `parseInt`.
- `HelmChartRegex`: `getChart` as written. The version is used as a regular-expression pattern, with greedy repetition and backtracking.
- `Badge`: the expand/collapse state machine of the badge component.
  - It is a class over the component's fields, driven by these events:
    - mouse-down;
    - document selection changes;
    - mouse-up;
    - unmount.
  - A pure transition function specifies each handler.
- `ClusterIcon`: the cluster icon's rules.
  - The warning-event badge: its label and when it is shown.
  - The broadcast channel name, and the active, interactive and tooltip flags.
  - The event count, kept last-write-wins from broadcasts.
- `LandingPage`: the welcome decision, and the bookkeeping of seen workspaces, on mount.
- Helper modules:
  - `Wrappers` (Option);
  - `Decimal` (decimal numerals of naturals);
  - `Workspaces`: the workspace and cluster records the icon and the landing page read. The workspace store is a map and the cluster store a list.

## Model

| member | source | states |
|---|---|---|
| TypeNarrowing.HasOwnProperty | src/common/utils/type-narrowing.ts:15-18 | A plain object owns exactly its keys; an array owns exactly "length" and the decimal numerals of its indices |
| TypeNarrowing.ArrayOwnProperty | src/common/utils/type-narrowing.ts:15-18 | An array owns exactly "length" and the decimal numerals of its indices; the property named by numeral i is element i |
| TypeNarrowing.HasOwnProperties | src/common/utils/type-narrowing.ts:25-27 | True iff every listed key is an own property; true for an empty key list |
| TypeNarrowing.HasTypedProperty | src/common/utils/type-narrowing.ts:35-37 | On a plain object: true iff the key is present and the validator accepts its value |
| TypeNarrowing.HasOptionalProperty | src/common/utils/type-narrowing.ts:45-51 | An absent key passes; on a plain object a present key passes iff its value is undefined or valid |
| TypeNarrowing.TypedImpliesOptional | src/common/utils/type-narrowing.ts:35-51 | Every value that passes hasTypedProperty passes hasOptionalProperty with the same key and validator |
| TypeNarrowing.IsRecord | src/common/utils/type-narrowing.ts:59-61 | False for null and non-objects; true for {}; on an object iff every entry passes both guards; on an array iff every (index numeral, element) pair passes |
| TypeNarrowing.ArrayRecordIsTypedArray | src/common/utils/type-narrowing.ts:59-70 | On an array, isRecord with isString keys agrees with isTypedArray |
| TypeNarrowing.IsTypedArray | src/common/utils/type-narrowing.ts:68-70 | True iff the value is an array whose every element passes; the empty array passes |
| TypeNarrowing.IsTuple | src/common/utils/type-narrowing.ts:77-81 | True iff an array no longer than the guard list, each guard accepting its element, and guards past the end accepting undefined |
| TypeNarrowing.TypedArrayAsTuple | src/common/utils/type-narrowing.ts:68-81 | isTypedArray(a, g) equals isTuple(a, g repeated once per element) |
| TypeNarrowing.IsString | src/common/utils/type-narrowing.ts:87-89 | typeof is "string" exactly for strings |
| TypeNarrowing.IsBoolean | src/common/utils/type-narrowing.ts:95-97 | typeof is "boolean" exactly for booleans |
| TypeNarrowing.IsNumber | src/common/utils/type-narrowing.ts:103-105 | typeof is "number" exactly for numbers |
| TypeNarrowing.IsNull | src/common/utils/type-narrowing.ts:119-121 | True exactly of the one value whose typeof is "object" but which is neither an array nor a plain object |
| TypeNarrowing.GuardsAreExclusive | src/common/utils/type-narrowing.ts:87-121 | At most one of isString, isBoolean, isNumber, isNull, isObject holds of a value, and none of undefined |
| TypeNarrowing.IsObject | src/common/utils/type-narrowing.ts:111-113 | True iff typeof is "object" and the value is not null, i.e. exactly arrays and plain objects |
| TypeNarrowing.NullIsNotObject | src/common/utils/type-narrowing.ts:111-121 | isNull(v) implies not isObject(v) |
| TypeNarrowing.BindTypeGuard | src/common/utils/type-narrowing.ts:141-143 | The bound guard gives fn(x, args) on every x |
| TypeNarrowing.UnionTypeGuard | src/common/utils/type-narrowing.ts:155-158 | The union accepts x iff some guard accepts x |
| TypeNarrowing.EmptyUnionRejects | src/common/utils/type-narrowing.ts:155-158 | The union of no guards rejects every value |
| TypeNarrowing.UnionOfConcat | src/common/utils/type-narrowing.ts:155-158 | The union of two guard lists joined is the disjunction of the two unions |
| ParseQuery.Get | src/main/routes/utils/parse-query.ts:8 | None iff no pair has the key; otherwise the value of the first pair with the key |
| ParseQuery.GetBoolean | src/main/routes/utils/parse-query.ts:7-20 | Absent key gives false; a present value gives false iff it spells "false", "f" or "0" in any letter case; the empty value gives true |
| ParseQuery.LowerIsFalseWord | src/main/routes/utils/parse-query.ts:10-16 | The lower-cased value is one of the false words iff the value spells one of them in some mixture of cases |
| ParseQuery.FirstValueDecides | src/main/routes/utils/parse-query.ts:8 | Pairs after the first one with the key never change the flag |
| ParseQuery.CaseInsensitive | src/main/routes/utils/parse-query.ts:10 | Values equal after lower-casing give the same flag |
| BuildUrl.JoinFilterIsConcat | src/common/utils/buildUrl.ts:20 | Joining the parts left after dropping undefined and "" is the plain concatenation of all parts |
| BuildUrl.QueryPart | src/common/utils/buildUrl.ts:13-16 | Empty iff the encoding is empty; otherwise "?" followed by the encoding, never a bare "?" |
| BuildUrl.FragmentPart | src/common/utils/buildUrl.ts:17 | Empty iff the fragment is missing or empty; otherwise "#" followed by it, never a bare "#" |
| BuildUrl.BuildURL | src/common/utils/buildUrl.ts:9-21 | The URL is the compiled path, then the query part, then the fragment part, in that order |
| BuildUrl.PathOnly | src/common/utils/buildUrl.ts:12-21 | With no query and no or an empty fragment the URL is exactly the compiled path |
| BuildUrl.QueryPartPresence | src/common/utils/buildUrl.ts:13-16 | The query part is present iff a query is given and its encoding is non-empty |
| BuildUrl.BuildURLPositional | src/common/utils/buildUrl.ts:24-29 | The positional form builds the same URL from the same params, query and fragment |
| HelmReleases.GetId | src/renderer/api/endpoints/helm-releases.api.ts:161-163 | The id is the namespace immediately followed by the name |
| HelmReleases.GetName | src/renderer/api/endpoints/helm-releases.api.ts:165-167 | The name is what follows the namespace in the id |
| HelmReleases.GetNs | src/renderer/api/endpoints/helm-releases.api.ts:169-171 | The namespace is what precedes the name in the id |
| HelmReleases.IdIsNsThenName | src/renderer/api/endpoints/helm-releases.api.ts:161-171 | getId is getNs followed by getName, which return the fields unchanged |
| HelmReleases.IdsCanCollide | src/renderer/api/endpoints/helm-releases.api.ts:161-163 | Releases in namespaces "a" and "ab" named "bc" and "c" share an id |
| HelmReleases.VersionStart | src/renderer/api/endpoints/helm-releases.api.ts:194 | The leftmost position where the version pattern matches, or none when it matches nowhere |
| HelmReleases.GetVersion | src/renderer/api/endpoints/helm-releases.api.ts:193-197 | "" iff the pattern matches nowhere; otherwise the proper suffix from the leftmost match, preceded by "-" |
| HelmReleases.MatchesAtSimple | src/renderer/api/endpoints/helm-releases.api.ts:194 | Without line terminators a match at i means "-" before i, then "v", a digit and a non-"-", or a digit and a non-"-" |
| HelmReleases.LineTerminatorBlocksMatch | src/renderer/api/endpoints/helm-releases.api.ts:194 | In "a-1x\n" the pattern does not match at 2, though the simple reading says it does |
| HelmReleases.VersionExample | src/renderer/api/endpoints/helm-releases.api.ts:194 | "nginx-ingress-1.2.3" has version "1.2.3" |
| HelmReleases.RemoveFirst | src/renderer/api/endpoints/helm-releases.api.ts:179 | Unchanged when the text does not occur; otherwise only its first occurrence is cut out |
| HelmReleases.GetChart | src/renderer/api/endpoints/helm-releases.api.ts:173-183 | With withVersion, or with an empty version, the chart is returned unchanged |
| HelmReleases.ChartNameAndVersion | src/renderer/api/endpoints/helm-releases.api.ts:173-183 | For a chart with a version and no line terminators, getChart() + "-" + getVersion() rebuilds the chart |
| HelmReleases.ParseInt | src/renderer/api/endpoints/helm-releases.api.ts:186 | NaN iff no digit follows the white space and sign; otherwise the signed value of the longest digit run |
| HelmReleases.GetRevision | src/renderer/api/endpoints/helm-releases.api.ts:185-187 | An empty revision is NaN; a revision made only of digits reads as the value of that numeral |
| HelmReleases.RevisionRoundTrip | src/renderer/api/endpoints/helm-releases.api.ts:185-187 | A revision that is the numeral of n, maybe followed by a non-digit, reads as n |
| HelmReleases.RevisionWithoutDigits | src/renderer/api/endpoints/helm-releases.api.ts:185-187 | "" and "abc" read as NaN |
| HelmChartRegex.CompilePattern | src/renderer/api/endpoints/helm-releases.api.ts:177 | The pattern compiles to at most one term per character; which terms come out and when it throws are stated by CompileFailsIff and CompileRenders below |
| HelmChartRegex.CompileFailsIff | src/renderer/api/endpoints/helm-releases.api.ts:177 | Compiling throws exactly when some "+" has nothing to repeat: it starts the pattern or follows another "+" |
| HelmChartRegex.CompileRenders | src/renderer/api/endpoints/helm-releases.api.ts:177 | When compiling succeeds, writing the terms back out gives the pattern again, and "." and "+" never become literal atoms |
| HelmChartRegex.FirstMatch | src/renderer/api/endpoints/helm-releases.api.ts:179 | The leftmost start where the pattern matches, with no match starting earlier, and where that match ends; none iff it matches nowhere |
| HelmChartRegex.GetChartAsWritten | src/renderer/api/endpoints/helm-releases.api.ts:173-183 | With withVersion or an empty version the chart is returned unchanged; the regex removal is tied to the corrected getChart by AsWrittenAgreesWithLiteral and AsWrittenThrowsOrShortens below |
| HelmChartRegex.AsWrittenThrowsOrShortens | src/renderer/api/endpoints/helm-releases.api.ts:173-183 | getChart() as written throws iff it searches and the version holds a "+" with nothing to repeat; otherwise the result is never longer than the chart |
| HelmChartRegex.AsWrittenAgreesWithLiteral | src/renderer/api/endpoints/helm-releases.api.ts:173-183 | For every release whose version has no "." and no "+", getChart as written returns the corrected getChart's result |
| HelmChartRegex.BuildMetadataNotStripped | src/renderer/api/endpoints/helm-releases.api.ts:173-183 | "app-1.0.0+abc" has version "1.0.0+abc", comes back whole as written, and gives "app" with the literal search |
| HelmChartRegex.DotMatchesEarlierText | src/renderer/api/endpoints/helm-releases.api.ts:173-183 | "a-1-5-1.5" has version "1.5" and gives "a-1.5" as written, but "a-1-5" with the literal search |
| Badge.Badge.constructor | src/renderer/components/badge/badge.tsx:20-21 | A new badge is collapsed, has no highlight and no listener |
| Badge.Badge.IsExpanded | src/renderer/components/badge/badge.tsx:28-30 | The isExpanded prop when given, else the internal flag |
| Badge.ForcedValueWins | src/renderer/components/badge/badge.tsx:28-30 | A given isExpanded prop decides the shown state after any events |
| Badge.Badge.IsExpandable | src/renderer/components/badge/badge.tsx:32-37 | Never when flat or before the element exists; otherwise iff the content is wider or taller than the element |
| Badge.Badge.SetRef | src/renderer/components/badge/badge.tsx:39-43 | Stores the element and changes no other state |
| Badge.Badge.OnSelectionChange | src/renderer/components/badge/badge.tsx:45-48 | Sets the highlight when the selection is non-empty, never clears it, changes nothing else |
| Badge.Badge.OnMouseDown | src/renderer/components/badge/badge.tsx:50-54 | Samples the current selection, then turns the listener on |
| Badge.Badge.OnMouseUp | src/renderer/components/badge/badge.tsx:56-65 | Toggles the internal flag iff nothing was highlighted; then no highlight and no listener |
| Badge.Badge.OnDocumentSelectionChange | src/renderer/components/badge/badge.tsx:50-58 | A selection change reaches the handler only while it is registered; otherwise nothing changes |
| Badge.Badge.ComponentWillUnmount | src/renderer/components/badge/badge.tsx:24-26 | Removes the listener, nothing else |
| Badge.ChangesWhileListening | src/renderer/components/badge/badge.tsx:45-54 | After selection changes, the badge is highlighted iff it was, or it was listening and some selection was non-empty; nothing else changes |
| Badge.HighlightKeptUntilMouseUp | src/renderer/components/badge/badge.tsx:45-65 | A highlight survives every sequence of events without a mouse-up |
| Badge.ClickOutcome | src/renderer/components/badge/badge.tsx:45-65 | A click toggles the flag iff nothing was highlighted before or during it; afterwards no highlight and no listener |
| Badge.TwoPlainClicksRestore | src/renderer/components/badge/badge.tsx:45-65 | Two clicks selecting nothing, from a badge without a highlight, restore its expanded flag |
| ClusterIcon.ClusterIcon.constructor | src/renderer/components/cluster-icon/cluster-icon.tsx:34 | The event count starts at 0 with no broadcast received |
| ClusterIcon.ClusterIcon.OnEventCount | src/renderer/components/cluster-icon/cluster-icon.tsx:48-51 | Each broadcast overwrites the count; the count is always the last value received, or 0 |
| ClusterIcon.LastWriteWins | src/renderer/components/cluster-icon/cluster-icon.tsx:49-51 | Broadcasts before a later one do not affect the count |
| ClusterIcon.EventCountBroadcast | src/renderer/components/cluster-icon/cluster-icon.tsx:36-40 | The channel is "cluster-warning-event-count:" followed by the cluster id |
| ClusterIcon.ChannelsDistinct | src/renderer/components/cluster-icon/cluster-icon.tsx:36-40 | Distinct clusters listen on distinct channels |
| ClusterIcon.IsActive | src/renderer/components/cluster-icon/cluster-icon.tsx:42-46 | Throws iff the cluster's workspace does not exist; true iff that workspace's active cluster is this one |
| ClusterIcon.Interactive | src/renderer/components/cluster-icon/cluster-icon.tsx:69 | The interactive prop when given, else whether there is a click handler |
| ClusterIcon.TooltipTarget | src/renderer/components/cluster-icon/cluster-icon.tsx:67-74 | The element id "cluster-icon-" + id unless showTooltip is false (it defaults to true) |
| ClusterIcon.Thousands | src/renderer/components/cluster-icon/cluster-icon.tsx:83 | The ceiling of n / 1000: (k - 1) * 1000 < n <= k * 1000 |
| ClusterIcon.Label | src/renderer/components/cluster-icon/cluster-icon.tsx:83 | Below 1000 the numeral of the count; from 1000 on a numeral k with (k - 1) * 1000 < count <= k * 1000, then "k+" |
| ClusterIcon.LabelExamples | src/renderer/components/cluster-icon/cluster-icon.tsx:83 | 999 gives "999", 1000 gives "1k+", 1001 gives "2k+", 12345 gives "13k+" |
| ClusterIcon.ErrorBadge | src/renderer/components/cluster-icon/cluster-icon.tsx:80-84 | A badge iff showErrors (default true), a positive count, an inactive and online cluster; its text is the label |
| Workspaces.ClustersOf | src/renderer/components/+landing-page/landing-page.tsx:21-23 | Exactly the clusters that belong to the workspace |
| LandingPage.SeenWorkspaces | src/renderer/components/+landing-page/landing-page.tsx:26-32 | No longer than the stored list, and made only of ids of existing workspaces |
| LandingPage.ShowsWelcome | src/renderer/components/+landing-page/landing-page.tsx:34 | Welcome iff the current id is not among the seen ids, no cluster belongs to the workspace, and it is not managed |
| LandingPage.SeenMembers | src/renderer/components/+landing-page/landing-page.tsx:26-32 | An id is seen iff it was stored and its workspace exists |
| LandingPage.SeenNoDuplicates | src/renderer/components/+landing-page/landing-page.tsx:27-32 | The seen list holds each id once |
| LandingPage.SeenKeepsOrder | src/renderer/components/+landing-page/landing-page.tsx:27-32 | Seen ids keep the order of their first occurrence in the stored list |
| LandingPage.Add | src/renderer/components/+landing-page/landing-page.tsx:41 | The set then holds exactly its old ids and the new one; the old ids keep their order and at most one id is appended; no duplicates are introduced |
| LandingPage.SeenOfSeen | src/renderer/components/+landing-page/landing-page.tsx:27-32 | A duplicate-free list of existing ids survives the filter unchanged |
| LandingPage.ComponentDidMount | src/renderer/components/+landing-page/landing-page.tsx:25-43 | Welcome iff the current id was not stored for an existing workspace, the workspace has no clusters and is not managed. The new list is the seen ids plus the current id, duplicate-free, made of existing stored ids and the current id |
| LandingPage.RemountIsQuiet | src/renderer/components/+landing-page/landing-page.tsx:25-43 | Mounting again with the stored list unchanged shows no welcome and stores the same list |

## Left out

- IPC and cluster activation are not part of this model: `requestMain`, `whenReady`, `kubeWatchApi.subscribeStores` and `subscribeToBroadcast`. A broadcast is an input event (`ClusterIcon.ClusterIcon.OnEventCount`), and unsubscribing on unmount is not modelled.
- JSX rendering, class names, tooltips' content, Hashicon and icons are not modelled. The same goes for the sidebar, app, clusters menu, replica-set details and cluster-settings command.
- The Helm REST API calls and the YAML parsing of release values are not modelled. These are network and foreign-parser calls.
- `getStatus`, `getUpdated` and `getRepo` are not modelled. They rely on lodash `capitalize`, on dates and the clock, and on an asynchronous repository store.
- `path-to-regexp`'s `compile`, `URLSearchParams` encoding and `String(path)` are uninterpreted parameters.
- DOM state is not modelled:
  - Listener registration is a boolean.
  - The text of `document.getSelection()` is an argument of each event.
  - Element sizes are a value.
- The landing page's `createStorage` persistence and `Notifications.info` are not modelled. The stored list is an argument and a result, and the notice is a returned flag.
- The workspace and cluster stores are not part of this model. The current workspace, the workspace map and the cluster list are arguments.
- TypeNarrowing models only strings, numbers as integers, booleans, null, undefined, arrays and plain objects. It leaves out the following:
  - symbols, functions and bigint values;
  - symbol keys and prototype chains;
  - fractional numbers and NaN;
  - the 2^32 - 2 bound on array indices.
- ParseQuery.ToLower: lower-cases ASCII letters only. No other character lower-cases to a letter of "false" or "f", so `getBoolean` is unaffected.
- HelmReleases.ParseInt: returns a mathematical integer. It does not model the loss of precision beyond 2^53 or the value -0 that `parseInt("-0")` gives.
- ClusterIcon.Thousands: uses integer ceiling division. The source divides in floating point before `Math.ceil`, and the two agree only for counts below about 9 * 10^15.
- HelmChartRegex.GetChartAsWritten: requires a chart with no pattern syntax other than "." and "+". Charts with other syntax characters, such as "(" or "*", are not covered.
- HelmChartRegex.GetChartAsWritten: a character here is a Unicode scalar value, while a pattern without the "u" flag steps over UTF-16 code units. So a "." in the version matches a whole character outside the Basic Multilingual Plane here, but only half of one in JavaScript. For the chart "-1😀5\n-1.5" (version "1.5") the model removes "-1😀5", giving "\n-1.5", while JavaScript skips that text and gives "-1😀5\n". getVersion is not affected: its match starts after an ASCII "-", and `[^-]` followed by `.*` takes the rest of the line either way.
- The copy-old-clusters.js migration script is not modelled. It is one-off file I/O.

## Findings

| source | as written | input that shows it | evidently intended | confidence | as-written member | corrected member |
|---|---|---|---|---|---|---|
| src/renderer/api/endpoints/helm-releases.api.ts:173-183 | getChart builds `new RegExp("-" + version)` from the unescaped version, so "." matches any character and "+" repeats the character before it | chart "a-1-5-1.5" (version "1.5") gives "a-1.5"; chart "app-1.0.0+abc" (version "1.0.0+abc") comes back unchanged | remove the literal "-" + version suffix, giving "a-1-5" and "app" | high; not executed | HelmChartRegex.DotMatchesEarlierText | HelmReleases.ChartNameAndVersion |

A second as-written member backs the same finding: HelmChartRegex.BuildMetadataNotStripped. The corrected `HelmReleases.GetChart` searches for the version as literal text. ChartNameAndVersion proves that, for every chart with a version and no line terminators, it then removes exactly the version suffix.
