# upcache: the package update resolver, in Dafny

This project models the core of `upcache` from vmaas-rs. `upcache` is a read-only index of
an RPM package database. It answers one kind of request: given installed packages,
written as NEVRA strings (`name-[epoch:]version-release.arch`), which newer builds fix
an advisory (an erratum), and in which repositories are they published?

The model has four parts.

- **Package identity** (`prelude.dfy`, `cache.dfy`). The `Nevra` record has a printer
  and a parser. The parser is written as the character classes of the NEVRA regular
  expression, applied from the right. The model also has the `Evr` and `NevraId`
  colon-separated text forms, and the derived order on `Evr`.
- **The cache and its loaders** (`cache.dfy`, `util.dfy`). The `Cache` record holds 23
  indices. Every `load_*` function is modelled on the rows its queries return: how
  each index is derived from those rows (`load_map`, `load_multimap`, `invert`, the
  grouping passes of `load_pkg` and `load_repos`, and the CVE list joins).
- **Request resolution** (`updates.dfy`):
  - `process_repositories` scopes the repositories by labels, releasever and basearch;
  - `process_input_packages` admits the input packages;
  - `process_updates` does the per-package lookups, selects later builds by arch
    compatibility, advisory, repository, product and releasever, and appends the
    `PkgUpdate` records;
  - `calc_updates` ties these steps together.

  Hash-map iteration order (FNV) is modelled as an arbitrary choice among the keys
  not yet visited.
- **Standard-library pieces** (`text.dfy`, `wrappers.dfy`): i64 text conversion,
  `split`, `contains`, the lexicographic order on strings, and `Option`/`Result`.

Panics and errors are modelled like this:

- **Cache indexing panics.** A panic on an index of the cache (`map[&k]`, `vec[i]`) is
  excluded by the `Updates.WellFormed` precondition. That predicate states the
  referential integrity a database snapshot is expected to have.
- **Errors and panics caused by user input.** These are results:
  - an unknown arch is `Error.ArchNotFound`;
  - an epoch that does not fit in an i64 is `Error.EpochOverflow`;
  - `Evr`/`NevraId` text that does not parse is a `ParseError`.

The main results:

- `Updates.CalcUpdates` fails exactly when the lookup of some admitted package fails
  (`Updates.LookupFailsExactly`). The lookup fails only after the package's name id has
  both an `updates` list and an updates index. Then it fails when the epoch overflows
  an i64, or when the EVR is known and the arch is not. A package whose EVR is unknown
  is skipped, whatever its arch. Otherwise its update list has an entry for exactly the
  admitted inputs, and each entry's records are `PackageRecords`.
- `Updates.UpdateRecordFacts` and `Updates.UpdateRecordFrom` characterise that set in
  both directions, in the source's own terms (`Updates.Emits`). `Updates.Emits`
  requires all of the following:
  - a later build of the same name;
  - with the same or a compatible arch;
  - carrying the advisory;
  - in a repository that is in scope and that the advisory is published in;
  - whose releasever and product match those of one of the installed build's
    repositories.
- The parser and printer of `Nevra` are proved inverse to each other:
  `Prelude.FromStrToString` and `Prelude.FromStr`. For the text forms of `Evr` and
  `NevraId`, printing then parsing returns the value (`Cache.EvrRoundTrip`,
  `Cache.NevraIdRoundTrip`). The converse does not hold: `x:0:1:2`, `+5:1:2` and
  `007:1:2` all parse but print differently.

## Model

| member | source | states |
|---|---|---|
| Prelude.ToString | upcache/src/prelude.rs:68-81 | the printed NEVRA; `Prelude.ToStringIsFormat` spells it out and `Prelude.FromStrToString` inverts it |
| Prelude.ToStringIsFormat | upcache/src/prelude.rs:68-81 | the printed NEVRA is name, `-`, optional `epoch:`, version, `-`, release, `.`, arch |
| Prelude.FromStr | upcache/src/prelude.rs:93-122 | a successful parse yields a well-formed NEVRA (fields drawn from the pattern's character classes, epoch all digits) that prints back to exactly the input |
| Prelude.FromStrToString | upcache/src/prelude.rs:68-122 | parsing the printed form of any well-formed NEVRA gives it back |
| Prelude.FromStrAcceptsExactlyTheGrammar | upcache/src/prelude.rs:93-122 | the parser accepts a string if and only if it is the printed form of some well-formed NEVRA |
| Prelude.EvrOf | upcache/src/prelude.rs:59-65 | `evr()` copies version and release; without an epoch the epoch is 0 |
| Prelude.EvrOfWellFormed | upcache/src/prelude.rs:59-65 | for a digit epoch, `evr()` succeeds exactly when its value fits in an i64, and then the epoch is that value |
| Prelude.FromNameEvrArch | upcache/src/prelude.rs:37-56 | the epoch is omitted exactly when it is 0; name, version, release and arch are copied |
| Prelude.EvrOfFromNameEvrArch | upcache/src/prelude.rs:37-65 | `evr()` of a NEVRA built from an `Evr` gives that `Evr` back |
| Cache.EvrFromStr | upcache/src/cache/mod.rs:21-35 | parsing succeeds exactly when there are at least three `:`-pieces and the third from the end is an i64; version and release hold no colon |
| Cache.EvrRoundTrip | upcache/src/cache/mod.rs:21-41 | parsing the displayed `Evr` gives it back (when version and release hold no colon) |
| Cache.EvrFromStrIgnoresPrefix | upcache/src/cache/mod.rs:24-34 | pieces in front of the last three are ignored |
| Cache.EvrLessIsStrictTotalOrder | upcache/src/cache/mod.rs:13-19 | the derived order on `Evr` (epoch, then version, then release) is a strict total order |
| Cache.EvrOrderIsTextual | upcache/src/cache/mod.rs:13-19 | the derived order compares versions as text: `0:10:1` sorts before `0:9:1` |
| Cache.NevraIdFromStr | upcache/src/cache/mod.rs:46-60 | parsing succeeds exactly when there are at least three `:`-pieces and each of the last three is an i64; the ids are those three values |
| Cache.EvrToString | upcache/src/cache/mod.rs:37-41 | `Display for Evr`: `epoch:version:release`; its partner is `Cache.EvrRoundTrip` |
| Cache.NevraIdToString | upcache/src/cache/mod.rs:62-66 | `Display for NevraId`: the three ids joined by `:`; its partner is `Cache.NevraIdRoundTrip` |
| Cache.EmptyCache | upcache/src/cache/mod.rs:130-162 | `Cache::default()`: every index empty |
| Cache.PutIndex | upcache/src/cache/mod.rs:173-174 | one `updates_index` row: the name's inner map gets the row's EVR id set to its cast order; its invariant is stated by `Cache.BuildUpdatesIndex` |
| Cache.NevraIdRoundTrip | upcache/src/cache/mod.rs:46-66 | parsing the displayed `NevraId` gives it back |
| Cache.AsUsize | upcache/src/cache/mod.rs:174 | the `as usize` cast keeps non-negative orders and maps negative ones to at least 2^63 |
| Cache.BuildUpdatesIndex | upcache/src/cache/mod.rs:172-176 | the index has an entry per name id of the rows; each (name, evr) maps to the order of its last row, other pairs are untouched |
| Cache.LoadUpdates | upcache/src/cache/mod.rs:165-179 | `updates[n]` is the old list followed by the package ids of n's rows in row order; `updates_index` as in `BuildUpdatesIndex`; nothing else changes |
| Cache.LoadEvr | upcache/src/cache/mod.rs:181-192 | `id_to_evr` is the rows collected (last wins) and `evr_to_id` is an inverse of it; nothing else changes |
| Cache.LoadArch | upcache/src/cache/mod.rs:194-206 | `id_to_arch` is `load_map` of the arch rows, `arch_to_id` an inverse, `arch_compat` gains each from-arch's to-arches in row order; nothing else changes |
| Cache.LoadPkg | upcache/src/cache/mod.rs:208-235 | `pkg_details` gains the rows; every package is indexed under its `NevraId` and, when it has one, listed under its source package id |
| Cache.NevraStep | upcache/src/cache/mod.rs:226-227 | one step of the `nevra_to_pkgid` pass keeps the index invariant |
| Cache.GroupedStep | upcache/src/cache/mod.rs:229-231 | one step of a grouping pass keeps the grouping invariant |
| Cache.LoadRepos | upcache/src/cache/mod.rs:237-261 | `repo_detail` gains the rows; each repository is listed under its label and, when present, under its product id |
| Cache.CvePairs | upcache/src/cache/mod.rs:264-289 | every loaded CVE starts with empty CWE, advisory and package lists |
| Cache.Attach | upcache/src/cache/mod.rs:291-307 | a join replaces the list of exactly the CVEs that have an entry and keeps the key set |
| Cache.AttachJoin | upcache/src/cache/mod.rs:291-307 | a join from key and value columns gives each joined CVE the values of its rows in row order |
| Cache.LoadCve | upcache/src/cache/mod.rs:263-310 | the CVE keys are those of the rows; each CVE's three lists are its joined rows' values, or stay as loaded; nothing else changes |
| Cache.CveEntry | upcache/src/cache/mod.rs:291-307 | the three successive joins on one CVE agree with the combined description |
| Cache.CveListsStartEmpty | upcache/src/cache/mod.rs:283-307 | a CVE with no joined rows keeps an empty list |
| Cache.LoadIdentities | upcache/src/cache/mod.rs:363-366 | `load_names`, `load_updates`, `load_evr` and `load_arch` fill exactly their indices from the rows: the key set and the contents of each, including `arch_compat` |
| Cache.LoadPackagesAndRepos | upcache/src/cache/mod.rs:367-368 | `load_pkg` and `load_repos` fill exactly their indices from the rows |
| Cache.LoadJoins | upcache/src/cache/mod.rs:370-380 | the package/advisory/repository joins, `load_cve`, `load_errata`, `load_modules` and the strings fill exactly their indices: each multimap's key set and lists, and every CVE with its CWE, advisory and package lists |
| Cache.Load | upcache/src/cache/mod.rs:356-384 | every index of the loaded cache is the one its rows determine |
| Util.LoadVec | upcache/src/cache/util.rs:16-23 | the rows in query order |
| Util.Zip | upcache/src/cache/util.rs:28 | pairs up to the shorter length, position by position |
| Util.Collect | upcache/src/cache/util.rs:28 | the keys are those of the pairs, each mapped to the value of its last pair |
| Util.CollectValue | upcache/src/cache/util.rs:28 | every collected entry comes from some pair |
| Util.LoadMap | upcache/src/cache/util.rs:25-29 | keys of the zipped columns, each mapped to its last value |
| Util.InsertAll | upcache/src/cache/mod.rs:222 | inserting pairs one by one is the union with their collection |
| Util.GroupInto | upcache/src/cache/mod.rs:201-203 | `entry(k).or_default().push(v)` over zipped columns appends to each key its values in order; total size grows by the number of pairs |
| Util.LoadMultimap | upcache/src/cache/util.rs:31-40 | keys are those of the zipped rows, each list holds its key's values in row order and is non-empty |
| Util.ValuesForHas | upcache/src/cache/util.rs:36-38 | every row's value is in its key's list |
| Util.Invert | upcache/src/cache/util.rs:42-44 | the result's keys are the values and each maps back to a key holding it |
| Util.InverseOfInjective | upcache/src/cache/util.rs:42-44 | for an injective map the inverse sends each value to its unique key |
| Util.InvertTwice | upcache/src/cache/util.rs:42-44 | inverting an injective map twice gives it back |
| Util.InverseIsInjective | upcache/src/cache/util.rs:42-44 | an inverse is injective |
| Text.ParseI64 | upcache/src/prelude.rs:62 | `str::parse::<i64>`: succeeds only on non-empty text; `Text.ParseIntToString` and `Text.ParseDigits` say what it returns |
| Text.LastIndexOf | upcache/src/prelude.rs:99-103 | the last position of a character, or -1; no later position holds it |
| Text.Contains | upcache/src/calc/updates.rs:237 | `str::contains`; `Text.ContainsAt` characterises it |
| Text.ContainsAt | upcache/src/calc/updates.rs:246 | `s` contains `sub` exactly when `sub` sits at some position of `s` |
| Text.ParseIntToString | upcache/src/cache/mod.rs:30 | parsing the decimal form of an i64 gives it back |
| Text.IntToString | upcache/src/cache/mod.rs:39 | the decimal form holds no colon and starts with `-` exactly for negatives |
| Text.Split | upcache/src/cache/mod.rs:25 | `split(':')` gives at least one piece and no piece holds the separator |
| Text.SplitAppend | upcache/src/cache/mod.rs:25 | splitting a joined string splits each side |
| Text.SplitLast | upcache/src/prelude.rs:99-103 | the split at the last separator, absent exactly when the separator is absent |
| Text.StringLessTotal | upcache/src/cache/mod.rs:13 | the order on strings is total |
| Text.StringLessTransitive | upcache/src/cache/mod.rs:13 | the order on strings is transitive |
| Text.StringLessIrreflexive | upcache/src/cache/mod.rs:13 | the order on strings is irreflexive |
| Updates.Response.constructor | upcache/src/calc/updates.rs:45-54 | the default response is empty |
| Updates.WellFormed | upcache/src/calc/updates.rs:134-212 | the cache facts under which no index of `process_updates` panics: update positions in range, and every id the resolver looks up present |
| Updates.Kept | upcache/src/calc/updates.rs:233-247 | the ids a `retain` on one field keeps, in order; `Updates.KeptMembers` characterises it |
| Updates.KeptMembers | upcache/src/calc/updates.rs:233-247 | an id survives a field filter iff it was present and the repository has that releasever/basearch, or has none and its url contains the wanted text |
| Updates.Retain | upcache/src/calc/updates.rs:233-247 | `retain` keeps exactly the filter's ids in order |
| Updates.LabelIds | upcache/src/calc/updates.rs:221-226 | the ids listed under the requested labels, label after label; `Updates.LabelIdsMembers` characterises it |
| Updates.LabelIdsMembers | upcache/src/calc/updates.rs:221-226 | the ids gathered from labels are exactly those listed under some requested label |
| Updates.KeysInSomeOrder | upcache/src/calc/updates.rs:229 | the ids listed are exactly the repository keys |
| Updates.LabelRepoIds | upcache/src/calc/updates.rs:221-226 | the loop gathers the label ids in label order |
| Updates.FiltersSelect | upcache/src/calc/updates.rs:232-251 | the two filters leave exactly the scoped repositories |
| Updates.ProcessRepositories | upcache/src/calc/updates.rs:214-252 | the result is the scoped repository set; repository list, releasever and basearch are echoed when given, the update list is untouched |
| Updates.AdmittedStep | upcache/src/calc/updates.rs:261-271 | one input step keeps the admission invariant |
| Updates.ProcessInputPackages | upcache/src/calc/updates.rs:254-274 | keys are exactly the inputs that parse and whose name has an id with an updates index; each maps to its parse, which prints back to the key |
| Updates.LookupPackage | upcache/src/calc/updates.rs:142-152 | the lookups of one package in source order: skip, fail or found with its position; `Updates.LookupFailsExactly` and `Updates.FoundInBounds` state its outcomes |
| Updates.LookupFailsExactly | upcache/src/calc/updates.rs:142-150 | a package fails exactly when its name, updates and index are found and then its epoch overflows or, its evr being known, its arch is unknown; which error it gives |
| Updates.FoundInBounds | upcache/src/calc/updates.rs:142-152 | a found package's position comes from the updates index and lies within its name's updates, all of which are known packages |
| Updates.BuildNevra | upcache/src/calc/updates.rs:77-83 | the built NEVRA has the package's name and arch |
| Updates.BuildNevraEvr | upcache/src/calc/updates.rs:77-83 | the built NEVRA's `evr()` is the package's `Evr` |
| Updates.RelatedProducts | upcache/src/calc/updates.rs:85-91 | the set of product ids of the given repositories |
| Updates.ValidReleasevers | upcache/src/calc/updates.rs:93-99 | the set of releasevers of the given repositories |
| Updates.ErrataReposMembers | upcache/src/calc/updates.rs:109-113 | a repository is gathered iff one of the advisories is published in it |
| Updates.GetRepositories | upcache/src/calc/updates.rs:101-132 | the package's repositories that an advisory is published in, that are in scope, and whose releasever and product are valid |
| Updates.ReposForMembers | upcache/src/calc/updates.rs:119-127 | membership in one advisory's repository set, condition by condition |
| Updates.Record | upcache/src/calc/updates.rs:200-206 | the `PkgUpdate` literal: built NEVRA, advisory name, repository label, basearch and releasever (empty when absent) |
| Updates.PushRecords | upcache/src/calc/updates.rs:198-207 | one record per repository: as many records as repositories, and the set of records is that of `Updates.Record` over the repositories |
| Updates.PushErrata | upcache/src/calc/updates.rs:187-208 | the records of every advisory of the candidate |
| Updates.CollectUpdates | upcache/src/calc/updates.rs:173-209 | the records of every candidate that has advisories and a fitting arch |
| Updates.CandidateRecordSource | upcache/src/calc/updates.rs:175-208 | every collected record comes from some candidate, advisory and repository meeting the filters |
| Updates.CandidateRecordFrom | upcache/src/calc/updates.rs:175-208 | every candidate, advisory and repository meeting the filters yields its record |
| Updates.ErrataRecordSource | upcache/src/calc/updates.rs:187-207 | every record of one candidate comes from one of its advisories and a repository for it |
| Updates.ErrataRecordFrom | upcache/src/calc/updates.rs:187-207 | every advisory and repository for it yields its record |
| Updates.ScopeOfMembers | upcache/src/calc/updates.rs:163-170 | a releasever or product is valid iff some repository of the installed build has it |
| Updates.PackageRecordsFound | upcache/src/calc/updates.rs:157-173 | a found package has no records when it is its name's newest build, else those of the later builds |
| Updates.ProcessFound | upcache/src/calc/updates.rs:157-209 | nothing is pushed for the newest build; otherwise the records of the builds after it |
| Updates.ProcessPackage | upcache/src/calc/updates.rs:140-209 | the lookup outcome and the records pushed for one input package |
| Updates.AppendedStep | upcache/src/calc/updates.rs:155-207 | one package step keeps the update-list invariant |
| Updates.ProcessUpdates | upcache/src/calc/updates.rs:134-212 | fails iff some package's lookup fails, with one of those errors; else every found package's entry gains its records, other entries keep theirs, the echoed fields are untouched |
| Updates.InsertDefaults | upcache/src/calc/updates.rs:285-287 | one empty entry per admitted package |
| Updates.FailuresOfAdmitted | upcache/src/calc/updates.rs:261-266 | the failures among the admitted map are the failures among the admitted inputs |
| Updates.AnswersFrom | upcache/src/calc/updates.rs:283-296 | default entries followed by `process_updates` give the answer for the request |
| Updates.CalcUpdates | upcache/src/calc/updates.rs:276-297 | fails iff some admitted input's lookup fails, with that error; else entries for exactly the admitted inputs, each holding its `PackageRecords`, and the request's repository list, releasever and basearch echoed |
| Updates.ScopedRecordFacts | upcache/src/calc/updates.rs:163-209 | every record for later builds has a reason: build position, advisory and repository meeting each filter |
| Updates.ScopedRecordFrom | upcache/src/calc/updates.rs:163-209 | every build position, advisory and repository meeting each filter yields its record |
| Updates.UpdateRecordFacts | upcache/src/calc/updates.rs:140-209 | every record reported for an input package is a later build of its name, with a fitting arch, an advisory, and an in-scope repository of that advisory with a matching releasever and product |
| Updates.UpdateRecordFrom | upcache/src/calc/updates.rs:140-209 | conversely, every such build, advisory and repository is reported |
| Updates.NewestHasNoUpdates | upcache/src/calc/updates.rs:157-161 | the newest build of a name has no updates |

## Left out

- The SQLite layer (`load_rows`, the connection in `load`) is not modelled. Each query is given as the sequence of rows it returns, in its `ORDER BY` order.
- `load_dbchange` does nothing, so it is not modelled, and neither are the `dbchange` and `pkgerrata_to_module` fields, which nothing fills.
- The CVSS scores of `Cve` are floating point and are not modelled.
- The regular-expression engine is replaced by the grammar's character classes. Matching from the right is equivalent, because the arch excludes `-`, `.` and `:`, and version and release exclude `-` and `:`.
- Logging (`println!`) and JSON serialisation are not modelled. The `modules_list` loop in `calc_updates` does nothing, so it is not modelled either.
- The rest of the repository is not part of this model: the HTTP API, the repository listing and the other front ends.
- Updates.ProcessUpdates: the records of an entry are stated as a set. Their order depends on FNV iteration order and is not stated. Their multiplicity does not depend on it: one record per candidate position, advisory entry and surviving repository. The set contract does not state it (only `Updates.PushRecords` states its count), because a multiset contract over the nested loops costs more than the verifier's budget allows.
- Updates.CalcUpdates: states the records of each entry as a set, for the same reasons.
- Updates.CollectUpdates: records are stated as a set, and order and multiplicity are left out as above.
- Updates.ProcessFound: records are stated as a set, and order and multiplicity are left out as above.
- Updates.ProcessPackage: records are stated as a set, and order and multiplicity are left out as above.
- Updates.WellFormed: each cache-indexing panic (`pkg_details[..]`, `repo_detail[..]`, `errataid_to_name[..]`, `errataid_to_repoids[..]`, `updates[idx]`) is excluded by a precondition on the whole cache, rather than modelled as a panic.
- Updates.LookupPackage: an epoch that does not fit in an i64 panics in `evr()`. The model makes it an `EpochOverflow` error of the request.
- Cache.EvrFromStr: missing pieces or a non-integer epoch panic in the source. The model makes them a `ParseError`. `Cache.NevraIdFromStr` does the same.
- Updates.ProcessInputPackages: the `response` parameter of `process_input_packages` is never used, so the model drops it.
- Updates.ProcessUpdates: the source pushes each record into the entry directly. The model collects a package's records first and then appends them to its entry. The resulting list is the same.
- Util.Invert: with duplicate values, which key wins depends on hash order. The model states only that some key holding the value is chosen.
