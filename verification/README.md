# ReadySetRecover record stores, in Dafny

This project models the in-memory core of the ReadySetRecover disaster
assistant. Each part below is a pure function or a short method over
immutable values, and its contracts and lemmas state what the Java code
promises.

- **Report stores** (`DisasterManager` in `DuringDisaster.java`). There is one store per disaster type:
  - Earthquake, prefix `EQ`; Typhoon, `TYP`; Flood, `FLD`; Fire, `FIR`.
  - A store holds a counter and an insertion-ordered map from identifier to report.
  - Identifiers are `prefix + %03d(counter)`.
  - Search tries three tiers in order: identifier, reporter name, then a reporter-name substring. All three ignore case.
  - Delete takes an identifier. A deleted identifier is never reissued.
- **Safety suggestions**: each disaster type answers situation codes 1 to 4 with advice lines. Every other code raises an invalid-choice error.
- **Hospital directory** (`HospitalDirectory`): a `TreeMap` keyed by trimmed city names under the case-insensitive order. Three operations:
  - adding a hospital;
  - seeding the directory;
  - city lookup with a substring fallback, and a final fallback to the hospitals of eight notable cities.
- **Survivor store** (`AfterDisaster.java`): a 100-slot array plus a count. Operations:
  - add, rejected when full;
  - search by name, ignoring case;
  - delete by shifting later slots left;
  - display as five-line cards;
  - an in-place bubble sort by name, ignoring case.

How Java state is represented:
- Mutable Java state is passed explicitly. An operation takes the old store and returns the new one, together with its result.
- An exception becomes the `Failure` case of a `Result`.
- `java.lang.String` operations (`toLowerCase`, `equalsIgnoreCase`, `contains`, `trim`, `compareToIgnoreCase`) are written out in module `Text`.

Files:
- `results.dfy`: `Option` and `Result`.
- `text.dfy`: string operations and `truncateText`.
- `report_ids.dfy`: identifier formatting and parsing.
- `disasters.dfy`: the four disaster types and their suggestions.
- `report_store.dfy`: the report store.
- `hospitals.dfy`: the hospital directory.
- `survivors.dfy`: the survivor store.

Two behaviours of the code worth knowing:
- **Search after delete.** A search for a deleted report's identifier can still succeed: the trimmed key is also tried against reporter names, first exactly and then as a substring, ignoring case (`DuringDisaster.java:111-116`). So another report can be returned. `ReportStore.SearchAfterDeleteMissesIt` proves what is guaranteed: the deleted report is never returned, and neither is any report with that identifier.
- **Survivor delete.** Survivor delete matches names with `equalsIgnoreCase` (`AfterDisaster.java:175`), as survivor search does (`AfterDisaster.java:158`). The model matches names in the same way.

## Model

| member | source | states |
|---|---|---|
| Text.Trim | ReadySetRecover/DuringDisaster.java:106-107 | `trim` gives the empty string exactly for an all-blank input, and never leaves a blank at either end |
| Text.TrimSpec | ReadySetRecover/DuringDisaster.java:107 | what `trim` removes is a blank prefix and a blank suffix, nothing else |
| Text.TrimmedIffFixed | ReadySetRecover/DuringDisaster.java:269 | `trim` leaves a string unchanged exactly when it has no blank at either end |
| Text.TrimIdempotent | ReadySetRecover/DuringDisaster.java:269 | trimming an already trimmed key changes nothing |
| Text.CompareZeroIffEqualsIgnoreCase | ReadySetRecover/DuringDisaster.java:258 | `compareToIgnoreCase` is zero exactly for strings equal ignoring case, so the TreeMap's keys are distinct ignoring case |
| Text.CompareAntisymmetric | ReadySetRecover/AfterDisaster.java:207 | swapping the operands of the name comparison negates it |
| Text.CompareTransitive | ReadySetRecover/AfterDisaster.java:207 | the name order is transitive, and strictly so if either step is strict |
| Text.EqualsImpliesContains | ReadySetRecover/DuringDisaster.java:334 | a city equal to the key ignoring case also passes the substring test |
| Text.Lower | ReadySetRecover/DuringDisaster.java:115 | `toLowerCase` keeps the length and lowers each character in place; `Text.LowerAppend` shows it distributes over concatenation |
| Text.LowerAppend | ReadySetRecover/DuringDisaster.java:334 | lowering a concatenation lowers each part |
| Text.EqualsIgnoreCase | ReadySetRecover/DuringDisaster.java:109 | `equalsIgnoreCase`, as equality after lowering; no contract of its own: `Text.CompareZeroIffEqualsIgnoreCase` ties it to the name order, `Text.EqualsImpliesContains` to the substring test |
| Text.ContainsIgnoreCase | ReadySetRecover/DuringDisaster.java:115 | `toLowerCase().contains(toLowerCase())`; no contract of its own: `Text.EqualsImpliesContains` shows that equality ignoring case implies it |
| Text.CompareIgnoreCase | ReadySetRecover/AfterDisaster.java:207 | `compareToIgnoreCase`, also the `TreeMap` order at `DuringDisaster.java:258`; no contract of its own: its partner lemmas prove it zero exactly on case-equal strings, antisymmetric and transitive |
| Text.TruncateText | ReadySetRecover/DuringDisaster.java:560-564 | null gives ""; a short text is kept; a long one becomes its first max-3 characters plus "...", exactly max long |
| ReportIds.Pad3 | ReadySetRecover/DuringDisaster.java:95 | `%03d` gives digits that read back as n, exactly three of them below 100 |
| ReportIds.ValueOfDecimal | ReadySetRecover/DuringDisaster.java:95 | the decimal numeral of n reads back as n |
| ReportIds.ValueOfLeadingZeros | ReadySetRecover/DuringDisaster.java:95 | zero padding does not change the value of a numeral |
| ReportIds.DecimalShortIffBelow100 | ReadySetRecover/DuringDisaster.java:95 | padding is needed exactly for numbers below 100 |
| ReportIds.ParseId | ReadySetRecover/DuringDisaster.java:93-96 | reads back the number of an identifier with the given prefix, ignoring case; a result implies the identifier starts with the prefix; `ReportIds.FormatIdRoundTrip` makes it the inverse of the format |
| ReportIds.FormatId | ReadySetRecover/DuringDisaster.java:93-96 | an identifier is the prefix followed by digits denoting n, exactly three of them below 100 and otherwise as many as n's numeral has, as `%03d` pads |
| ReportIds.FormatIdRoundTrip | ReadySetRecover/DuringDisaster.java:93-96 | parsing a formatted identifier gives back its sequence number |
| ReportIds.ParseIdIgnoresCase | ReadySetRecover/DuringDisaster.java:109 | identifiers equal ignoring case carry the same sequence number |
| ReportIds.FormatIdInjective | ReadySetRecover/DuringDisaster.java:93-96 | different counter values give identifiers that differ even ignoring case |
| ReportIds.FloodIdExamples | ReadySetRecover/DuringDisaster.java:95 | Flood identifiers 1 and 2 are "FLD001" and "FLD002" |
| ReportIds.FourDigitIdExample | ReadySetRecover/DuringDisaster.java:95 | number 1000 is written in full as "EQ1000", not cut to three digits |
| ReportIds.DifferentPrefixesDiffer | ReadySetRecover/DuringDisaster.java:95 | identifiers whose capital-letter prefixes differ in one of the first two letters differ even ignoring case |
| Disasters.CodePrefix | ReadySetRecover/DuringDisaster.java:146-232 | each subclass passes a prefix of two or three capital letters |
| Disasters.SafetySuggestions | ReadySetRecover/DuringDisaster.java:146-252 | succeeds exactly for codes 1 to 4, with a non-empty advice list; otherwise fails with the invalid-situation error of that disaster |
| Disasters.InvalidSituationNamesDisaster | ReadySetRecover/DuringDisaster.java:180 | the invalid-choice message names its disaster type |
| Disasters.PrefixesDiffer | ReadySetRecover/DuringDisaster.java:147 | prefixes of different types differ in their first two letters |
| ReportStore.NewManager | ReadySetRecover/DuringDisaster.java:82-91 | a new store has counter 0, no reports, and satisfies the store invariant |
| ReportStore.IdsDistinct | ReadySetRecover/DuringDisaster.java:83 | no two stored reports have identifiers equal ignoring case |
| ReportStore.NextIdFresh | ReadySetRecover/DuringDisaster.java:93-96 | the next identifier clashes, ignoring case, with no stored one |
| ReportStore.CreateId | ReadySetRecover/DuringDisaster.java:93-96 | the counter advances by one; the identifier is the prefix followed by `%03d` of the new value, so it parses back to that value; no stored report has it |
| ReportStore.Put | ReadySetRecover/DuringDisaster.java:101 | a new key is appended at the end of insertion order; an existing key keeps its place, where only the value is replaced and every other entry is unchanged |
| ReportStore.AppendKeepsValid | ReadySetRecover/DuringDisaster.java:98-103 | appending the report numbered counter+1 keeps the store invariant |
| ReportStore.PutFresh | ReadySetRecover/DuringDisaster.java:99-101 | in a valid store the new identifier is fresh, so `put` appends the report at the end of insertion order |
| ReportStore.InsertReport | ReadySetRecover/DuringDisaster.java:98-103 | the report gets the next identifier and status "Active", is appended after the unchanged existing reports, and the invariant holds |
| ReportStore.SearchByIdOrName | ReadySetRecover/DuringDisaster.java:105-118 | blank key fails with "Empty search key."; otherwise the result is the first match of the first tier that matches anything, and "not found" only when no tier matches |
| ReportStore.SelectedUnique | ReadySetRecover/DuringDisaster.java:108-116 | the search policy selects at most one report |
| ReportStore.GetAllReports | ReadySetRecover/DuringDisaster.java:120-122 | every stored report once, in increasing identifier order, all active |
| ReportStore.FindFirst | ReadySetRecover/DuringDisaster.java:108-116 | the first position from `from` on whose report the tier accepts, or none; every earlier position is rejected, and for none every position is; the same scan serves the delete loop at lines 127-129 |
| ReportStore.DeleteReport | ReadySetRecover/DuringDisaster.java:124-134 | blank id fails; an unmatched id fails leaving the store unchanged; a non-blank id whose trimmed form equals a stored identifier ignoring case always succeeds; on success the first such report is removed, the rest keep order, the counter is kept |
| ReportStore.RemoveKeepsValid | ReadySetRecover/DuringDisaster.java:132 | removing any one report keeps the store invariant |
| ReportStore.DeleteKeepsValid | ReadySetRecover/DuringDisaster.java:124-134 | deletion keeps the store invariant |
| ReportStore.RemoveOnlyMatch | ReadySetRecover/DuringDisaster.java:126-132 | removing the matched report leaves nothing matching and every other report present |
| ReportStore.DeleteRemovesExactlyTheMatch | ReadySetRecover/DuringDisaster.java:124-134 | after a delete the listing lacks exactly the matched report |
| ReportStore.SearchWithoutIdMatch | ReadySetRecover/DuringDisaster.java:108-116 | with no identifier match, a successful search returned a report by reporter, not by identifier |
| ReportStore.SearchAfterDeleteMissesIt | ReadySetRecover/DuringDisaster.java:105-134 | searching for a deleted identifier never returns a report with that identifier |
| ReportStore.DeletedIdNeverReissued | ReadySetRecover/DuringDisaster.java:93-134 | after a delete, the next insert's number exceeds every old one and its identifier is new |
| ReportStore.IdsOfDifferentStoresDiffer | ReadySetRecover/DuringDisaster.java:146-232 | identifiers of stores of different types never coincide, even ignoring case |
| ReportStore.RunNumbersInsertsConsecutively | ReadySetRecover/DuringDisaster.java:93-134 | over any mix of inserts and deletes (`RunSpec`): the k-th insert gets number counter+k+1; the counter advances once per insert and never on a delete; the invariant holds |
| ReportStore.FreshStoreIssuesSequentialIds | ReadySetRecover/DuringDisaster.java:84-96 | from a fresh store, inserts get prefix+001, prefix+002, …, all distinct ignoring case |
| ReportStore.NumberedCons | ReadySetRecover/DuringDisaster.java:93-96 | the identifier numbered n followed by a run numbered from n+1 is a run numbered from n |
| ReportStore.TwoInserts | ReadySetRecover/DuringDisaster.java:98-103 | two inserts into a valid store append two active reports numbered counter+1 and counter+2, in order |
| ReportStore.FloodInsertsExample | ReadySetRecover/DuringDisaster.java:93-103 | a fresh Flood store gives its first two reports "FLD001" then "FLD002", both active |
| ReportStore.DeleteFirst | ReadySetRecover/DuringDisaster.java:124-134 | deleting by the first report's identifier removes exactly that report |
| ReportStore.FloodDeleteExample | ReadySetRecover/DuringDisaster.java:120-134 | after those two inserts, deleting "FLD001" succeeds and the listing holds only the second report |
| Hospitals.CitiesDistinct | ReadySetRecover/DuringDisaster.java:258 | no two keys of the map are equal ignoring case |
| Hospitals.Lookup | ReadySetRecover/DuringDisaster.java:331 | `TreeMap.get`: absent exactly when no key equals the argument ignoring case, otherwise the list of such a key |
| Hospitals.FindCity | ReadySetRecover/DuringDisaster.java:331 | finds an entry whose key equals the key ignoring case, or reports that none does |
| Hospitals.LookupSomeIffKey | ReadySetRecover/DuringDisaster.java:331 | `get` finds a list exactly when some key equals the argument ignoring case |
| Hospitals.LookupAt | ReadySetRecover/DuringDisaster.java:258 | any spelling of a key gets that key's list |
| Hospitals.LookupIgnoresCase | ReadySetRecover/DuringDisaster.java:258 | lookups with keys equal ignoring case agree |
| Hospitals.InsertPos | ReadySetRecover/DuringDisaster.java:269 | a new key goes after every key not above it and before the first key above it |
| Hospitals.InsertKeepsValid | ReadySetRecover/DuringDisaster.java:269 | inserting a new trimmed key at its place keeps the keys strictly ordered |
| Hospitals.AddHospitalSpec | ReadySetRecover/DuringDisaster.java:268-270 | the map stays ordered, and the trimmed city's list gains the hospital at its end, starting a new list if absent |
| Hospitals.AddHospitalKeepsOthers | ReadySetRecover/DuringDisaster.java:268-270 | every other city's list is unchanged |
| Hospitals.AddAllKeepsValid | ReadySetRecover/DuringDisaster.java:272-324 | seeding keeps the map ordered |
| Hospitals.KeptThroughAddAll | ReadySetRecover/DuringDisaster.java:272-324 | a listed hospital stays listed through further additions; a membership corollary of `Hospitals.AddAllListsExactly` |
| Hospitals.AddAllListsEverySeed | ReadySetRecover/DuringDisaster.java:272-324 | after seeding, every seeded hospital is in its trimmed city's list; a membership corollary of `Hospitals.AddAllListsExactly` |
| Hospitals.AddHospital | ReadySetRecover/DuringDisaster.java:268-270 | `computeIfAbsent(trim).add` adds at most one entry; on a valid directory `Hospitals.AddHospitalSpec` proves the result valid, with the trimmed city's list (ignoring case) gaining the hospital at its end, and `Hospitals.AddHospitalKeepsOthers` proves every other city's list unchanged |
| Hospitals.AddAll | ReadySetRecover/DuringDisaster.java:272-324 | `populateHospitals` as a fold of `addHospital` over the seed lines; no contract of its own: `Hospitals.AddAllListsExactly` fixes every key's resulting list, and `Hospitals.AddAllKeepsValid` keeps the map valid |
| Hospitals.AddOneListed | ReadySetRecover/DuringDisaster.java:268-270 | one `addHospital` keeps the map valid and appends the hospital to the list of a key exactly when the trimmed city equals it ignoring case, leaving every other list as it was |
| Hospitals.AddAllListsExactly | ReadySetRecover/DuringDisaster.java:272-324 | after seeding, each key's list is its old list followed by exactly the hospitals of the seed lines whose trimmed city equals the key ignoring case, in seed order |
| Hospitals.Gather | ReadySetRecover/DuringDisaster.java:343-348 | the loop of `getTopHospitals`; no contract of its own: `Hospitals.GatherAppend` and `Hospitals.GatherAt` make it the in-order concatenation of the cities' lists |
| Hospitals.GatherAppend | ReadySetRecover/DuringDisaster.java:344-347 | gathering over two city lists one after the other concatenates the two results |
| Hospitals.GatherAt | ReadySetRecover/DuringDisaster.java:344-347 | the `k`-th city's whole list sits between the lists of the cities before it and those after it |
| Hospitals.GatherEight | ReadySetRecover/DuringDisaster.java:343-348 | gathering eight cities gives their eight lists concatenated in order |
| Hospitals.GatherListedCity | ReadySetRecover/DuringDisaster.java:343-348 | a hospital is gathered exactly when it is in the list of some city of the collection |
| Hospitals.GatherStartsWithFirst | ReadySetRecover/DuringDisaster.java:344-347 | the gathered list starts with the whole list of the first city; the `k = 0` case of `Hospitals.GatherAt` |
| Hospitals.TopHospitals | ReadySetRecover/DuringDisaster.java:341-349 | `getTopHospitals`; no contract of its own: `Hospitals.TopHospitalsInOrder` fixes it as the ordered concatenation of the eight lists |
| Hospitals.TopHospitalsInOrder | ReadySetRecover/DuringDisaster.java:341-349 | the fallback is the lists of Batangas City, Lipa City, Tanauan City, Bauan, Sto. Tomas, Balayan, Nasugbu and Lemery, each whole and in that order, with an absent city contributing nothing |
| Hospitals.GatherMembership | ReadySetRecover/DuringDisaster.java:344-347 | the gathered list holds a hospital exactly when some city's list does |
| Hospitals.TopHospitalsContents | ReadySetRecover/DuringDisaster.java:341-349 | the fallback holds exactly the hospitals of the eight listed cities that are present, and begins with the Batangas City list; a membership corollary of `Hospitals.TopHospitalsInOrder` |
| Hospitals.ScanCities | ReadySetRecover/DuringDisaster.java:333-337 | the key-order scan returns the first city containing the key ignoring case, or none |
| Hospitals.FindByKey | ReadySetRecover/DuringDisaster.java:330-338 | the exact non-empty list, else the first containing city's list, else the fallback |
| Hospitals.FindHospitalsByCity | ReadySetRecover/DuringDisaster.java:326-339 | a blank city gives the notable cities' hospitals; otherwise the trimmed city is looked up with that fallback |
| Hospitals.FindUnknownCity | ReadySetRecover/DuringDisaster.java:326-339 | a city no key contains gets the fallback list |
| Hospitals.FindExactCity | ReadySetRecover/DuringDisaster.java:330-332 | a city equal to a key, after trimming and ignoring case, gets that key's list |
| Hospitals.FindPartialCity | ReadySetRecover/DuringDisaster.java:333-337 | a partial name gets the same list as the full name of the first city containing it |
| Hospitals.MatchedCityNotBlank | ReadySetRecover/DuringDisaster.java:334 | a trimmed city containing a non-empty key is not blank |
| Hospitals.LipaFindsLipaCity | ReadySetRecover/DuringDisaster.java:326-339 | "lipa" finds the Lipa City list when no other city contains it |
| Survivors.Live | ReadySetRecover/AfterDisaster.java:7-8 | the live survivors are exactly the contents of the first count slots |
| Survivors.NewStore | ReadySetRecover/AfterDisaster.java:7-8 | the store starts with 100 empty slots and no survivors |
| Survivors.AddSurvivor | ReadySetRecover/AfterDisaster.java:129-150 | full store: rejected and unchanged; otherwise the survivor is appended after the unchanged others |
| Survivors.SearchSurvivor | ReadySetRecover/AfterDisaster.java:152-165 | finds nothing exactly when no name matches ignoring case, else the first match |
| Survivors.DeleteSurvivor | ReadySetRecover/AfterDisaster.java:167-192 | no match: "not in system", store unchanged; otherwise the first match is removed, the others keep their order, the old last slot is cleared |
| Survivors.ShiftLeft | ReadySetRecover/AfterDisaster.java:177-179 | slots from i to count-2 take their successor's content; the others are untouched |
| Survivors.DeletedLive | ReadySetRecover/AfterDisaster.java:174-181 | after the shift the live survivors are the old ones without position i |
| Survivors.Card | ReadySetRecover/AfterDisaster.java:25-31 | `Survivor.display`: the separator and the four labelled fields; no contract of its own: `Survivors.DisplaySurvivors` places one card per live survivor |
| Survivors.DisplaySurvivors | ReadySetRecover/AfterDisaster.java:194-202 | an empty store prints the notice; otherwise one five-line card per survivor, in order |
| Survivors.WithNameAppend | ReadySetRecover/AfterDisaster.java:204-213 | the survivors of one name in a concatenation are those of each part, in order |
| Survivors.SwapKeepsOrderPerName | ReadySetRecover/AfterDisaster.java:207-211 | swapping neighbours with different names keeps each name's order |
| Survivors.BubblePass | ReadySetRecover/AfterDisaster.java:206-212 | one pass moves the largest name of the unsorted prefix to its end and keeps the permutation |
| Survivors.BubbleSort | ReadySetRecover/AfterDisaster.java:204-213 | a sorted permutation that keeps equal names in their order, and leaves a sorted input unchanged |
| Survivors.SortSurvivors | ReadySetRecover/AfterDisaster.java:204-215 | the live survivors end sorted by name, as a stable permutation; count is unchanged |

## Left out

- Console I/O: menus, `Scanner` input, printed confirmations and menu loops are left out. The operations take their inputs as parameters and return what the code prints or throws.
- `BeforeDisaster.java`, `ReadySetRecover.java` and the `DisasterGuide` classes of `AfterDisaster.java` are only printed guidance and navigation. They are not part of this model.
- `null` arguments are not modelled, because strings are never null here. Two exceptions:
  - `TruncateText` takes an `Option`: the code tests for null, so the model keeps that branch.
  - The null tests in search, delete and find coincide with the blank-key branches, which are modelled.
- The status write `setStatus("Deleted")` just before removal is not modelled: the report is removed right after, so no caller can observe it.
- `Report.toString`, `Hospital.toString` and the listing's 15-entry cap are left out (display only). `truncateText` is modelled.
- `suggestHospitalsNearby` only delegates to `findHospitalsByCity`, which is modelled.
- Case mapping covers the ASCII letters only. `toLowerCase` for other Unicode letters is not modelled.
- Text.Lower: its contract states the pointwise ASCII mapping, which is weaker than Java's full Unicode case mapping.
- Java strings are sequences of UTF-16 code units, while a Dafny `string` is a sequence of Unicode scalar values. For text outside the Basic Multilingual Plane (emoji, for instance), `length`, `substring` and `compareToIgnoreCase` count and compare differently. So `Text.TruncateText`'s length and cut point, and the survivor name order of `Survivors.SortSurvivors`, are stated per character rather than per code unit.
- Locale: `toLowerCase()` (`DuringDisaster.java:115`, `DuringDisaster.java:334`) follows the default locale, and `String.format("%03d")` (`DuringDisaster.java:95`) uses the locale's digits. The model fixes a root-like locale. Under a Turkish locale, for instance, `"LIPA".toLowerCase()` is `"lıpa"`, so `findHospitalsByCity("LIPA")` would fall back to the top list, while `Hospitals.FindHospitalsByCity` returns the Lipa City list.
- Text.TruncateText: its requires excludes `max < 3` for a text longer than `max`, where Java's `substring(0, max - 3)` throws `StringIndexOutOfBoundsException`. The only call site passes 40 (`DuringDisaster.java:500`), so the exception cannot occur there.
- ReportStore.CreateId: the counter is unbounded. The `AtomicInteger` wrap-around after 2^31-1 inserts is not modelled.
- Hospitals.AddAllListsEverySeed: covers `populateHospitals` for any sequence of seed lines. The 51 literal seed calls are not restated.
- The advice tables (Disasters.EarthquakeTable, TyphoonTable, FloodTable, FireTable) are written out line by line. Their contracts state only that each valid code gives a non-empty list: the lines are data, not a property.
- `TreeMap` lookup: the model scans the ordered entries linearly rather than by binary search. Under the ordering invariant both find the same unique entry (`Hospitals.LookupAt`).
- Concurrency: `AtomicInteger` is used from a single thread, so no concurrency is modelled.
