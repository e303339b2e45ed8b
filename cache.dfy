/** cache/mod.rs: the identity types `Evr` and `NevraId`, the entities of the snapshot, the
    `Cache` record of indices, and the in-memory part of every `load_*` function. */
module Cache {
  import opened Wrappers
  import opened Text
  import Util

  // ---------------------------------------------------------------------------
  // Evr and NevraId: colon-separated text forms

  /** Epoch, version and release; the derived order compares them in that order. */
  datatype Evr = Evr(epoch: i64, version: string, release: string)

  /** Why `from_str` fails; the source unwraps, so each of these is a panic there. */
  datatype ParseError = TooFewParts | NotAnInteger(part: string)

  /** `Display for Evr`: `epoch:version:release`. */
  function EvrToString(e: Evr): string {
    IntToString(e.epoch) + ":" + e.version + ":" + e.release
  }

  /** `Evr::from_str`: the last three `:`-separated pieces, taken from the end, are the
      release, the version and the epoch; anything in front of them is ignored. */
  function EvrFromStr(s: string): (r: Result<Evr, ParseError>)
    ensures r.Ok? ==> ':' !in r.value.version && ':' !in r.value.release
    ensures r.Ok? <==> |Split(s, ':')| >= 3 && ParseI64(Split(s, ':')[|Split(s, ':')| - 3]).Some?
  {
    var parts := Split(s, ':');
    var n := |parts|;
    if n < 3 then Err(TooFewParts)
    else match ParseI64(parts[n - 3])
      case None => Err(NotAnInteger(parts[n - 3]))
      case Some(epoch) => Ok(Evr(epoch, parts[n - 2], parts[n - 1]))
  }

  /** The three pieces of `a:b:c` when none of them holds a colon. */
  lemma SplitThree(a: string, b: string, c: string)
    requires ':' !in a && ':' !in b && ':' !in c
    ensures Split(a + ":" + b + ":" + c, ':') == [a, b, c]
  {
    assert a + ":" + b + ":" + c == (a + [':'] + b) + [':'] + c;
    SplitTwoSeparators(a, b, c);
  }

  lemma SplitTwoSeparators(a: string, b: string, c: string)
    requires ':' !in a && ':' !in b && ':' !in c
    ensures Split((a + [':'] + b) + [':'] + c, ':') == [a, b, c]
  {
    SplitAppend(a + [':'] + b, ':', c);
    SplitAppend(a, ':', b);
    SplitNoSeparator(a, ':');
    SplitNoSeparator(b, ':');
    SplitNoSeparator(c, ':');
  }

  /** Parsing what `Display` prints gives the `Evr` back, provided the version and the
      release hold no colon. */
  lemma EvrRoundTrip(e: Evr)
    requires ':' !in e.version && ':' !in e.release
    ensures EvrFromStr(EvrToString(e)) == Ok(e)
  {
    SplitThree(IntToString(e.epoch), e.version, e.release);
    ParseIntToString(e.epoch);
  }

  /** Only the last three pieces matter: a prefix ending in a colon is ignored. */
  lemma EvrFromStrIgnoresPrefix(prefix: string, e: Evr)
    requires ':' !in e.version && ':' !in e.release
    ensures EvrFromStr(prefix + ":" + EvrToString(e)) == Ok(e)
  {
    var t := EvrToString(e);
    SplitThree(IntToString(e.epoch), e.version, e.release);
    assert prefix + ":" + t == prefix + [':'] + t;
    SplitAppend(prefix, ':', t);
    ParseIntToString(e.epoch);
  }

  /** The derived `PartialOrd` of `Evr`: lexicographic over (epoch, version, release),
      the strings compared as plain text, not by RPM version rules. */
  predicate EvrLess(a: Evr, b: Evr) {
    || a.epoch < b.epoch
    || (a.epoch == b.epoch && StringLess(a.version, b.version))
    || (a.epoch == b.epoch && a.version == b.version && StringLess(a.release, b.release))
  }

  /** `EvrLess` is a strict total order. */
  lemma EvrLessIsStrictTotalOrder(a: Evr, b: Evr, c: Evr)
    ensures !EvrLess(a, a)
    ensures EvrLess(a, b) && EvrLess(b, c) ==> EvrLess(a, c)
    ensures a != b ==> EvrLess(a, b) || EvrLess(b, a)
  {
    StringLessIrreflexive(a.version);
    StringLessIrreflexive(a.release);
    if EvrLess(a, b) && EvrLess(b, c) {
      if StringLess(a.version, b.version) && StringLess(b.version, c.version) {
        StringLessTransitive(a.version, b.version, c.version);
      }
      if StringLess(a.release, b.release) && StringLess(b.release, c.release) {
        StringLessTransitive(a.release, b.release, c.release);
      }
    }
    if a != b {
      if a.version != b.version {
        StringLessTotal(a.version, b.version);
      } else if a.release != b.release {
        StringLessTotal(a.release, b.release);
      }
    }
  }

  /** Plain text order, not version order: "10" sorts before "9". */
  lemma EvrOrderIsTextual()
    ensures EvrLess(Evr(0, "10", "1"), Evr(0, "9", "1"))
  {
  }

  /** A package identity as three surrogate ids. */
  datatype NevraId = NevraId(nameId: i64, evrId: i64, archId: i64)

  /** `Display for NevraId`: `name_id:evr_id:arch_id`. */
  function NevraIdToString(n: NevraId): string {
    IntToString(n.nameId) + ":" + IntToString(n.evrId) + ":" + IntToString(n.archId)
  }

  /** `NevraId::from_str`: the last three pieces, each parsed as an `i64`; the name is
      parsed first, then the EVR id, then the arch id. */
  function NevraIdFromStr(s: string): (r: Result<NevraId, ParseError>)
    ensures var parts := Split(s, ':'); var n := |parts|;
      r.Ok? <==> n >= 3 && ParseI64(parts[n - 3]).Some? && ParseI64(parts[n - 2]).Some? && ParseI64(parts[n - 1]).Some?
    ensures var parts := Split(s, ':'); var n := |parts|;
      r.Ok? ==> r.value == NevraId(ParseI64(parts[n - 3]).value, ParseI64(parts[n - 2]).value, ParseI64(parts[n - 1]).value)
  {
    var parts := Split(s, ':');
    var n := |parts|;
    if n < 3 then Err(TooFewParts)
    else match (ParseI64(parts[n - 3]), ParseI64(parts[n - 2]), ParseI64(parts[n - 1]))
      case (None, _, _) => Err(NotAnInteger(parts[n - 3]))
      case (Some(_), None, _) => Err(NotAnInteger(parts[n - 2]))
      case (Some(_), Some(_), None) => Err(NotAnInteger(parts[n - 1]))
      case (Some(a), Some(b), Some(c)) => Ok(NevraId(a, b, c))
  }

  /** Parsing what `Display` prints gives the `NevraId` back. */
  lemma NevraIdRoundTrip(n: NevraId)
    ensures NevraIdFromStr(NevraIdToString(n)) == Ok(n)
  {
    SplitThree(IntToString(n.nameId), IntToString(n.evrId), IntToString(n.archId));
    ParseIntToString(n.nameId);
    ParseIntToString(n.evrId);
    ParseIntToString(n.archId);
  }

  // ---------------------------------------------------------------------------
  // Entities and the Cache record

  datatype Package = Package(
    nameId: i64, evrId: i64, archId: i64,
    summary: Option<i64>, desc: Option<i64>, sourcePkgId: Option<i64>)

  /** The CVSS scores (floating point) are not part of this model. */
  datatype Cve = Cve(
    name: string, redhatUrl: Option<string>, secondaryUrl: Option<string>,
    cvss3Metrics: Option<string>, impact: string,
    publishedDate: Option<string>, modifiedDate: Option<string>, iava: Option<string>,
    description: Option<string>, cvss2Metrics: Option<string>, cveSource: string,
    cwes: seq<string>, pkgids: seq<i64>, errataids: seq<i64>)

  datatype Repo = Repo(
    repoLabel: string, name: string, url: string,
    basearch: Option<string>, releasever: Option<string>,
    product: Option<string>, productId: Option<i64>, revision: Option<string>)

  datatype Errata = Errata(
    name: string, synopsis: string, summary: string, typ: string, severity: string,
    description: Option<string>, solution: string, issued: string, updated: string, url: string)

  /** The index set every request reads; built once by `Load`, never changed after. */
  datatype Cache = Cache(
    nameToId: map<string, i64>,
    idToName: map<i64, string>,
    updates: map<i64, seq<i64>>,
    updatesIndex: map<i64, map<i64, nat>>,
    evrToId: map<Evr, i64>,
    idToEvr: map<i64, Evr>,
    archToId: map<string, i64>,
    idToArch: map<i64, string>,
    archCompat: map<i64, seq<i64>>,
    pkgDetails: map<i64, Package>,
    nevraToPkgid: map<NevraId, i64>,
    repoDetail: map<i64, Repo>,
    repolabelToIds: map<string, seq<i64>>,
    productidToRepoids: map<i64, seq<i64>>,
    pkgidToRepoids: map<i64, seq<i64>>,
    errataidToName: map<i64, string>,
    pkgidToErrataids: map<i64, seq<i64>>,
    errataidToRepoids: map<i64, seq<i64>>,
    cveDetail: map<i64, Cve>,
    errataDetail: map<i64, Errata>,
    modulenameToId: map<string, seq<i64>>,
    srcPkgIdToPkgIds: map<i64, seq<i64>>,
    strings: map<i64, Option<string>>)

  /** `Cache::default()`. */
  function EmptyCache(): Cache {
    Cache(map[], map[], map[], map[], map[], map[], map[], map[], map[], map[], map[], map[],
          map[], map[], map[], map[], map[], map[], map[], map[], map[], map[], map[])
  }

  // ---------------------------------------------------------------------------
  // Rows, as the `ORDER BY` queries of the loaders return them

  datatype UpdateRow = UpdateRow(nameId: i64, packageId: i64, packageOrder: i64)
  datatype UpdateIndexRow = UpdateIndexRow(nameId: i64, evrId: i64, packageOrder: i64)
  datatype EvrRow = EvrRow(id: i64, epoch: i64, version: string, release: string)
  datatype PackageRow = PackageRow(
    id: i64, nameId: i64, evrId: i64, archId: i64,
    summaryId: Option<i64>, descriptionId: Option<i64>, sourcePackageId: Option<i64>)
  datatype RepoRow = RepoRow(id: i64, repo: Repo)
  datatype CveRow = CveRow(
    id: i64, name: string, redhatUrl: Option<string>, secondaryUrl: Option<string>,
    cvss3Metrics: Option<string>, impact: string,
    publishedDate: Option<string>, modifiedDate: Option<string>, iava: Option<string>,
    description: Option<string>, cvss2Metrics: Option<string>, cveSource: string)
  datatype ErrataRow = ErrataRow(id: i64, errata: Errata)

  /** `isize as usize`: a negative position wraps around to a huge one. */
  function AsUsize(x: i64): (u: nat)
    ensures x >= 0 ==> u == x
    ensures x < 0 ==> u >= 0x8000_0000_0000_0000
  {
    if x < 0 then x + 0x1_0000_0000_0000_0000 else x
  }

  /** The position stored for `(name, evr)`, if any. */
  function IndexAt(idx: map<i64, map<i64, nat>>, name: i64, evr: i64): Option<nat> {
    if name in idx && evr in idx[name] then Some(idx[name][evr]) else None
  }

  function IndexPairs(rows: seq<UpdateIndexRow>): (r: seq<((i64, i64), nat)>)
    ensures |r| == |rows|
    ensures forall i | 0 <= i < |rows| ::
              r[i] == ((rows[i].nameId, rows[i].evrId), AsUsize(rows[i].packageOrder))
  {
    seq(|rows|, i requires 0 <= i < |rows| =>
      ((rows[i].nameId, rows[i].evrId), AsUsize(rows[i].packageOrder)))
  }

  function IndexNames(rows: seq<UpdateIndexRow>): (r: seq<i64>)
    ensures |r| == |rows| && forall i | 0 <= i < |rows| :: r[i] == rows[i].nameId
  {
    seq(|rows|, i requires 0 <= i < |rows| => rows[i].nameId)
  }

  /** `updates_index.entry(name).or_default()` and then `insert(evr, position)`. */
  function PutIndex(idx: map<i64, map<i64, nat>>, row: UpdateIndexRow): map<i64, map<i64, nat>> {
    var perName := if row.nameId in idx then idx[row.nameId] else map[];
    idx[row.nameId := perName[row.evrId := AsUsize(row.packageOrder)]]
  }

  /** `idx` is `idx0` with the rows behind `names` and `pairs` applied, later rows winning. */
  ghost predicate IndexAfter(idx: map<i64, map<i64, nat>>, idx0: map<i64, map<i64, nat>>,
                             names: seq<i64>, pairs: seq<((i64, i64), nat)>)
  {
    && (forall n :: n in idx <==> n in idx0 || n in names)
    && (forall n: i64, e: i64 :: IndexAt(idx, n, e) ==
          if (n, e) in Util.Collect(pairs) then Some(Util.Collect(pairs)[(n, e)])
          else IndexAt(idx0, n, e))
  }

  /** The second loop of `load_updates`: `updates_index[name][evr] = package_order` for
      every row; a later row for the same pair overwrites an earlier one. */
  method BuildUpdatesIndex(idx0: map<i64, map<i64, nat>>, rows: seq<UpdateIndexRow>)
    returns (idx: map<i64, map<i64, nat>>)
    ensures forall n :: n in idx <==> n in idx0 || n in IndexNames(rows)
    ensures forall n: i64, e: i64 :: IndexAt(idx, n, e) ==
              if (n, e) in Util.Collect(IndexPairs(rows)) then Some(Util.Collect(IndexPairs(rows))[(n, e)])
              else IndexAt(idx0, n, e)
  {
    idx := idx0;
    var i := 0;
    while i < |rows|
      invariant 0 <= i <= |rows|
      invariant IndexAfter(idx, idx0, IndexNames(rows)[..i], IndexPairs(rows)[..i])
    {
      IndexStep(idx, idx0, rows, i);
      idx := PutIndex(idx, rows[i]);
      i := i + 1;
    }
    assert IndexPairs(rows)[..i] == IndexPairs(rows);
    assert IndexNames(rows)[..i] == IndexNames(rows);
  }

  lemma IndexStep(idx: map<i64, map<i64, nat>>, idx0: map<i64, map<i64, nat>>, rows: seq<UpdateIndexRow>, i: nat)
    requires i < |rows|
    requires IndexAfter(idx, idx0, IndexNames(rows)[..i], IndexPairs(rows)[..i])
    ensures IndexAfter(PutIndex(idx, rows[i]), idx0, IndexNames(rows)[..i + 1], IndexPairs(rows)[..i + 1])
  {
    IndexKeysStep(idx, idx0, rows, i);
    IndexValuesStep(idx, idx0, rows, i);
  }

  lemma IndexKeysStep(idx: map<i64, map<i64, nat>>, idx0: map<i64, map<i64, nat>>, rows: seq<UpdateIndexRow>, i: nat)
    requires i < |rows|
    requires forall n :: n in idx <==> n in idx0 || n in IndexNames(rows)[..i]
    ensures forall n :: n in PutIndex(idx, rows[i]) <==> n in idx0 || n in IndexNames(rows)[..i + 1]
  {
    var names := IndexNames(rows)[..i + 1];
    assert names == IndexNames(rows)[..i] + [rows[i].nameId];
    var idx' := PutIndex(idx, rows[i]);
    forall n
      ensures n in idx' <==> n in idx0 || n in names
    {
      assert n in idx' <==> n in idx || n == rows[i].nameId;
      assert n in names <==> n in IndexNames(rows)[..i] || n == rows[i].nameId;
    }
  }

  lemma IndexValuesStep(idx: map<i64, map<i64, nat>>, idx0: map<i64, map<i64, nat>>, rows: seq<UpdateIndexRow>, i: nat)
    requires i < |rows|
    requires forall n: i64, e: i64 :: IndexAt(idx, n, e) ==
               if (n, e) in Util.Collect(IndexPairs(rows)[..i]) then Some(Util.Collect(IndexPairs(rows)[..i])[(n, e)])
               else IndexAt(idx0, n, e)
    ensures forall n: i64, e: i64 :: IndexAt(PutIndex(idx, rows[i]), n, e) ==
               if (n, e) in Util.Collect(IndexPairs(rows)[..i + 1]) then Some(Util.Collect(IndexPairs(rows)[..i + 1])[(n, e)])
               else IndexAt(idx0, n, e)
  {
    var row := rows[i];
    var idx' := PutIndex(idx, row);
    var ps := IndexPairs(rows)[..i + 1];
    var c0 := Util.Collect(IndexPairs(rows)[..i]);
    assert ps[..|ps| - 1] == IndexPairs(rows)[..i];
    assert ps[|ps| - 1] == ((row.nameId, row.evrId), AsUsize(row.packageOrder));
    var c1 := Util.Collect(ps);
    assert c1 == c0[(row.nameId, row.evrId) := AsUsize(row.packageOrder)];
    forall n: i64, e: i64
      ensures IndexAt(idx', n, e) == if (n, e) in c1 then Some(c1[(n, e)]) else IndexAt(idx0, n, e)
    {
      if n == row.nameId && e == row.evrId {
        assert IndexAt(idx', n, e) == Some(AsUsize(row.packageOrder));
      } else {
        assert IndexAt(idx', n, e) == IndexAt(idx, n, e);
        assert ((n, e) in c1) == ((n, e) in c0);
      }
    }
  }

  // ---------------------------------------------------------------------------
  // load_updates, load_evr, load_arch

  function UpdateNames(rows: seq<UpdateRow>): (r: seq<i64>)
    ensures |r| == |rows| && forall i | 0 <= i < |rows| :: r[i] == rows[i].nameId
  {
    seq(|rows|, i requires 0 <= i < |rows| => rows[i].nameId)
  }

  function UpdatePackages(rows: seq<UpdateRow>): (r: seq<i64>)
    ensures |r| == |rows| && forall i | 0 <= i < |rows| :: r[i] == rows[i].packageId
  {
    seq(|rows|, i requires 0 <= i < |rows| => rows[i].packageId)
  }

  /** `load_updates`: every `updates` row appends its package id to the list of its name,
      in row order; every `updates_index` row records its position under (name, evr). */
  method LoadUpdates(cache: Cache, updateRows: seq<UpdateRow>, indexRows: seq<UpdateIndexRow>)
    returns (c: Cache)
    ensures c == cache.(updates := c.updates, updatesIndex := c.updatesIndex)
    ensures forall n :: n in c.updates <==> n in cache.updates || n in UpdateNames(updateRows)
    ensures forall n :: Util.Get(c.updates, n) == Util.Get(cache.updates, n) +
              Util.ValuesFor(UpdateNames(updateRows), UpdatePackages(updateRows), |updateRows|, n)
    ensures forall n :: n in c.updatesIndex <==> n in cache.updatesIndex || n in IndexNames(indexRows)
    ensures forall n: i64, e: i64 :: IndexAt(c.updatesIndex, n, e) ==
              if (n, e) in Util.Collect(IndexPairs(indexRows)) then Some(Util.Collect(IndexPairs(indexRows))[(n, e)])
              else IndexAt(cache.updatesIndex, n, e)
  {
    var names := UpdateNames(updateRows);
    var updates := Util.GroupInto(cache.updates, names, UpdatePackages(updateRows));
    assert names[..|updateRows|] == names;
    var index := BuildUpdatesIndex(cache.updatesIndex, indexRows);
    c := cache.(updates := updates, updatesIndex := index);
  }

  function EvrPairs(rows: seq<EvrRow>): (r: seq<(i64, Evr)>)
    ensures |r| == |rows|
    ensures forall i | 0 <= i < |rows| :: r[i] == (rows[i].id, Evr(rows[i].epoch, rows[i].version, rows[i].release))
  {
    seq(|rows|, i requires 0 <= i < |rows| => (rows[i].id, Evr(rows[i].epoch, rows[i].version, rows[i].release)))
  }

  /** `load_evr`: the rows collected into `id_to_evr` (a later id overwrites), and
      `evr_to_id` its inverse. */
  method LoadEvr(cache: Cache, rows: seq<EvrRow>) returns (c: Cache)
    ensures c == cache.(idToEvr := c.idToEvr, evrToId := c.evrToId)
    ensures c.idToEvr == Util.Collect(EvrPairs(rows))
    ensures Util.IsInverse(c.idToEvr, c.evrToId)
  {
    var res := Util.LoadVec(EvrPairs(rows));
    var idToEvr := Util.Collect(res);
    var evrToId := Util.Invert(idToEvr);
    c := cache.(idToEvr := idToEvr, evrToId := evrToId);
  }

  /** `load_arch`: `id_to_arch` from the `id` and `arch` columns, `arch_to_id` its inverse,
      and every `arch_compat` row appends its target to the list of its source arch. The
      two compat columns are read by separate queries and zipped. */
  method LoadArch(cache: Cache, archIds: seq<i64>, arches: seq<string>,
                  compatFrom: seq<i64>, compatTo: seq<i64>) returns (c: Cache)
    ensures c == cache.(idToArch := c.idToArch, archToId := c.archToId, archCompat := c.archCompat)
    ensures c.idToArch == Util.LoadMap(archIds, arches)
    ensures Util.IsInverse(c.idToArch, c.archToId)
    ensures forall a :: a in c.archCompat <==>
              a in cache.archCompat || a in compatFrom[..Util.Min(|compatFrom|, |compatTo|)]
    ensures forall a :: Util.Get(c.archCompat, a) == Util.Get(cache.archCompat, a) +
              Util.ValuesFor(compatFrom, compatTo, Util.Min(|compatFrom|, |compatTo|), a)
  {
    var idToArch := Util.LoadMap(archIds, arches);
    var archToId := Util.Invert(idToArch);
    var from := Util.LoadVec(compatFrom);
    var to := Util.LoadVec(compatTo);
    var compat := Util.GroupInto(cache.archCompat, from, to);
    c := cache.(idToArch := idToArch, archToId := archToId, archCompat := compat);
  }

  // ---------------------------------------------------------------------------
  // Indices derived from a detail map in one pass (load_pkg, load_repos)

  /** `entry(k).or_default().push(id)` when there is a key, nothing otherwise. */
  function PushUnder<K>(m: map<K, seq<i64>>, key: Option<K>, id: i64): map<K, seq<i64>> {
    if key.Some? then m[key.value := Util.Get(m, key.value) + [id]] else m
  }

  /** `m` is `m0` after the ids of `done` were pushed under their key: each old list is a
      prefix of the new one, an id is listed under `k` exactly when it was listed before or
      its detail has key `k`, and no new key has an empty list. */
  ghost predicate GroupedBy<V, K(!new)>(details: map<i64, V>, key: V -> Option<K>, done: set<i64>,
                                  m0: map<K, seq<i64>>, m: map<K, seq<i64>>)
    requires done <= details.Keys
  {
    && (forall k | k in m0 :: k in m)
    && (forall k :: Util.Get(m0, k) <= Util.Get(m, k))
    && (forall k, id :: id in Util.Get(m, k) <==>
          id in Util.Get(m0, k) || (id in done && key(details[id]) == Some(k)))
    && (forall k | k in m && k !in m0 :: m[k] != [])
  }

  lemma GroupedStep<V, K(!new)>(details: map<i64, V>, key: V -> Option<K>, done: set<i64>,
                          m0: map<K, seq<i64>>, m: map<K, seq<i64>>, id: i64)
    requires done <= details.Keys && id in details && id !in done
    requires GroupedBy(details, key, done, m0, m)
    ensures GroupedBy(details, key, done + {id}, m0, PushUnder(m, key(details[id]), id))
  {
    var m' := PushUnder(m, key(details[id]), id);
    forall k, x
      ensures x in Util.Get(m', k) <==>
                x in Util.Get(m0, k) || (x in done + {id} && key(details[x]) == Some(k))
    {
      PushedAt(details, key, done, m0, m, id, k, x);
    }
    forall k
      ensures Util.Get(m0, k) <= Util.Get(m', k)
    {
      assert Util.Get(m, k) <= Util.Get(m', k);
    }
  }

  lemma PushedAt<V, K(!new)>(details: map<i64, V>, key: V -> Option<K>, done: set<i64>,
                             m0: map<K, seq<i64>>, m: map<K, seq<i64>>, id: i64, k: K, x: i64)
    requires done <= details.Keys && id in details && id !in done
    requires x in Util.Get(m, k) <==> x in Util.Get(m0, k) || (x in done && key(details[x]) == Some(k))
    ensures x in Util.Get(PushUnder(m, key(details[id]), id), k) <==>
              x in Util.Get(m0, k) || (x in done + {id} && key(details[x]) == Some(k))
  {
    var m' := PushUnder(m, key(details[id]), id);
    if key(details[id]) == Some(k) {
      assert Util.Get(m', k) == Util.Get(m, k) + [id];
    } else {
      assert Util.Get(m', k) == Util.Get(m, k);
    }
  }

  function NevraIdOf(p: Package): NevraId {
    NevraId(p.nameId, p.evrId, p.archId)
  }

  /** `nevra` is `nevra0` after `insert(NevraId(..), id)` for the packages of `done`: every
      such package's triple is a key holding some package of `done` with that triple, and
      every other key keeps its old value. */
  ghost predicate NevraIndexed(details: map<i64, Package>, done: set<i64>,
                               nevra0: map<NevraId, i64>, nevra: map<NevraId, i64>)
    requires done <= details.Keys
  {
    && (forall k | k in nevra0 :: k in nevra)
    && (forall id | id in done ::
          NevraIdOf(details[id]) in nevra && nevra[NevraIdOf(details[id])] in done)
    && (forall k | k in nevra ::
          (k in nevra0 && nevra[k] == nevra0[k]) ||
          (nevra[k] in done && NevraIdOf(details[nevra[k]]) == k))
  }

  lemma NevraStep(details: map<i64, Package>, done: set<i64>,
                  nevra0: map<NevraId, i64>, nevra: map<NevraId, i64>, id: i64)
    requires done <= details.Keys && id in details && id !in done
    requires NevraIndexed(details, done, nevra0, nevra)
    ensures NevraIndexed(details, done + {id}, nevra0, nevra[NevraIdOf(details[id]) := id])
  {
  }

  function SourceOf(p: Package): Option<i64> { p.sourcePkgId }

  function PackagePairs(rows: seq<PackageRow>): (r: seq<(i64, Package)>)
    ensures |r| == |rows|
    ensures forall i | 0 <= i < |rows| :: r[i] == (rows[i].id, Package(
              rows[i].nameId, rows[i].evrId, rows[i].archId,
              rows[i].summaryId, rows[i].descriptionId, rows[i].sourcePackageId))
  {
    seq(|rows|, i requires 0 <= i < |rows| => (rows[i].id, Package(
      rows[i].nameId, rows[i].evrId, rows[i].archId,
      rows[i].summaryId, rows[i].descriptionId, rows[i].sourcePackageId)))
  }

  /** `load_pkg`: the rows inserted into `pkg_details`, then one pass over all of
      `pkg_details` (in hash order) that indexes each package by its id triple and
      under its source package. */
  method LoadPkg(cache: Cache, rows: seq<PackageRow>) returns (c: Cache)
    ensures c == cache.(pkgDetails := c.pkgDetails, nevraToPkgid := c.nevraToPkgid,
                        srcPkgIdToPkgIds := c.srcPkgIdToPkgIds)
    ensures c.pkgDetails == cache.pkgDetails + Util.Collect(PackagePairs(rows))
    ensures NevraIndexed(c.pkgDetails, c.pkgDetails.Keys, cache.nevraToPkgid, c.nevraToPkgid)
    ensures GroupedBy(c.pkgDetails, SourceOf, c.pkgDetails.Keys, cache.srcPkgIdToPkgIds, c.srcPkgIdToPkgIds)
  {
    var details := Util.InsertAll(cache.pkgDetails, PackagePairs(rows));
    var nevra := cache.nevraToPkgid;
    var src := cache.srcPkgIdToPkgIds;
    var todo := details.Keys;
    ghost var done := {};
    while todo != {}
      invariant done + todo == details.Keys && done !! todo
      invariant NevraIndexed(details, done, cache.nevraToPkgid, nevra)
      invariant GroupedBy(details, SourceOf, done, cache.srcPkgIdToPkgIds, src)
      decreases todo
    {
      var id :| id in todo;
      var p := details[id];
      NevraStep(details, done, cache.nevraToPkgid, nevra, id);
      GroupedStep(details, SourceOf, done, cache.srcPkgIdToPkgIds, src, id);
      done := done + {id};
      nevra := nevra[NevraIdOf(p) := id];
      src := PushUnder(src, p.sourcePkgId, id);
      todo := todo - {id};
    }
    c := cache.(pkgDetails := details, nevraToPkgid := nevra, srcPkgIdToPkgIds := src);
  }

  function LabelOf(r: Repo): Option<string> { Some(r.repoLabel) }

  function ProductOf(r: Repo): Option<i64> { r.productId }

  function RepoPairs(rows: seq<RepoRow>): (r: seq<(i64, Repo)>)
    ensures |r| == |rows|
    ensures forall i | 0 <= i < |rows| :: r[i] == (rows[i].id, rows[i].repo)
  {
    seq(|rows|, i requires 0 <= i < |rows| => (rows[i].id, rows[i].repo))
  }

  /** `load_repos`: the rows inserted into `repo_detail`, then one pass over all of it that
      lists each repo under its label and, when it has one, under its product id. */
  method LoadRepos(cache: Cache, rows: seq<RepoRow>) returns (c: Cache)
    ensures c == cache.(repoDetail := c.repoDetail, repolabelToIds := c.repolabelToIds,
                        productidToRepoids := c.productidToRepoids)
    ensures c.repoDetail == cache.repoDetail + Util.Collect(RepoPairs(rows))
    ensures GroupedBy(c.repoDetail, LabelOf, c.repoDetail.Keys, cache.repolabelToIds, c.repolabelToIds)
    ensures GroupedBy(c.repoDetail, ProductOf, c.repoDetail.Keys, cache.productidToRepoids, c.productidToRepoids)
  {
    var details := Util.InsertAll(cache.repoDetail, RepoPairs(rows));
    var labels := cache.repolabelToIds;
    var products := cache.productidToRepoids;
    var todo := details.Keys;
    ghost var done := {};
    while todo != {}
      invariant done + todo == details.Keys && done !! todo
      invariant GroupedBy(details, LabelOf, done, cache.repolabelToIds, labels)
      invariant GroupedBy(details, ProductOf, done, cache.productidToRepoids, products)
      decreases todo
    {
      var id :| id in todo;
      var r := details[id];
      GroupedStep(details, LabelOf, done, cache.repolabelToIds, labels, id);
      GroupedStep(details, ProductOf, done, cache.productidToRepoids, products, id);
      done := done + {id};
      labels := PushUnder(labels, Some(r.repoLabel), id);
      products := PushUnder(products, r.productId, id);
      todo := todo - {id};
    }
    c := cache.(repoDetail := details, repolabelToIds := labels, productidToRepoids := products);
  }

  // ---------------------------------------------------------------------------
  // load_cve

  /** A `cve_detail` row as a `Cve` whose join lists are still empty. */
  function CvePairs(rows: seq<CveRow>): (r: seq<(i64, Cve)>)
    ensures |r| == |rows|
    ensures forall i | 0 <= i < |rows| :: r[i].0 == rows[i].id
    ensures forall i | 0 <= i < |rows| :: r[i].1.cwes == [] && r[i].1.pkgids == [] && r[i].1.errataids == []
  {
    seq(|rows|, i requires 0 <= i < |rows| => (rows[i].id, Cve(
      rows[i].name, rows[i].redhatUrl, rows[i].secondaryUrl, rows[i].cvss3Metrics, rows[i].impact,
      rows[i].publishedDate, rows[i].modifiedDate, rows[i].iava, rows[i].description,
      rows[i].cvss2Metrics, rows[i].cveSource, [], [], [])))
  }

  /** `for (id, v) in lists { if let Some(cve) = details.get_mut(&id) { .. = v } }`: a list
      whose id is not a CVE already loaded is dropped. */
  method Attach<V>(details: map<i64, Cve>, lists: map<i64, seq<V>>, put: (Cve, seq<V>) -> Cve)
    returns (r: map<i64, Cve>)
    ensures r.Keys == details.Keys
    ensures forall id | id in r :: r[id] == if id in lists then put(details[id], lists[id]) else details[id]
  {
    r := details;
    var todo := lists.Keys;
    ghost var done := {};
    while todo != {}
      invariant done + todo == lists.Keys && done !! todo
      invariant r.Keys == details.Keys
      invariant forall id | id in r :: r[id] == if id in done then put(details[id], lists[id]) else details[id]
      decreases todo
    {
      var id :| id in todo;
      if id in r {
        r := r[id := put(details[id], lists[id])];
      }
      done := done + {id};
      todo := todo - {id};
    }
  }

  function WithCwes(cve: Cve, v: seq<string>): Cve { cve.(cwes := v) }
  function WithErrata(cve: Cve, v: seq<i64>): Cve { cve.(errataids := v) }
  function WithPackages(cve: Cve, v: seq<i64>): Cve { cve.(pkgids := v) }

  /** The list a join table gives to `id`, or `other` when it has no row for `id`. */
  ghost function JoinList<V>(keys: seq<i64>, vals: seq<V>, id: i64, other: seq<V>): seq<V> {
    var n := Util.Min(|keys|, |vals|);
    if id in keys[..n] then Util.ValuesFor(keys, vals, n, id) else other
  }

  /** One join table of `load_cve`: grouped by CVE id with `load_multimap`, then attached. */
  method AttachJoin<V>(details: map<i64, Cve>, keys: seq<i64>, vals: seq<V>, put: (Cve, seq<V>) -> Cve)
    returns (r: map<i64, Cve>)
    ensures r.Keys == details.Keys
    ensures forall id | id in r ::
              r[id] == if id in keys[..Util.Min(|keys|, |vals|)]
                       then put(details[id], Util.ValuesFor(keys, vals, Util.Min(|keys|, |vals|), id))
                       else details[id]
  {
    var lists := Util.LoadMultimap(keys, vals);
    r := Attach(details, lists, put);
  }

  /** `load_cve`: the rows inserted into `cve_detail` with empty join lists, then the three
      join tables, each grouped by CVE id, attached to the CVEs that exist. */
  method LoadCve(cache: Cache, rows: seq<CveRow>,
                 cweCves: seq<i64>, cwes: seq<string>,
                 errataCves: seq<i64>, errataIds: seq<i64>,
                 pkgCves: seq<i64>, pkgIds: seq<i64>) returns (c: Cache)
    ensures c == cache.(cveDetail := c.cveDetail)
    ensures c.cveDetail.Keys == (cache.cveDetail + Util.Collect(CvePairs(rows))).Keys
    ensures forall id | id in c.cveDetail ::
              var base := (cache.cveDetail + Util.Collect(CvePairs(rows)))[id];
              c.cveDetail[id] == base.(cwes := JoinList(cweCves, cwes, id, base.cwes),
                                       errataids := JoinList(errataCves, errataIds, id, base.errataids),
                                       pkgids := JoinList(pkgCves, pkgIds, id, base.pkgids))
  {
    var details := Util.InsertAll(cache.cveDetail, CvePairs(rows));
    var d1 := AttachJoin(details, cweCves, cwes, WithCwes);
    var d2 := AttachJoin(d1, errataCves, errataIds, WithErrata);
    var d3 := AttachJoin(d2, pkgCves, pkgIds, WithPackages);
    forall id | id in d3
      ensures d3[id] == details[id].(cwes := JoinList(cweCves, cwes, id, details[id].cwes),
                                     errataids := JoinList(errataCves, errataIds, id, details[id].errataids),
                                     pkgids := JoinList(pkgCves, pkgIds, id, details[id].pkgids))
    {
      CveEntry(details[id], d1[id], d2[id], d3[id], id, cweCves, cwes, errataCves, errataIds, pkgCves, pkgIds);
    }
    c := cache.(cveDetail := d3);
  }

  /** The three attachments of one CVE, one after the other. */
  lemma CveEntry(base: Cve, e1: Cve, e2: Cve, e3: Cve, id: i64,
                 cweCves: seq<i64>, cwes: seq<string>,
                 errataCves: seq<i64>, errataIds: seq<i64>,
                 pkgCves: seq<i64>, pkgIds: seq<i64>)
    requires e1 == if id in cweCves[..Util.Min(|cweCves|, |cwes|)]
                   then WithCwes(base, Util.ValuesFor(cweCves, cwes, Util.Min(|cweCves|, |cwes|), id)) else base
    requires e2 == if id in errataCves[..Util.Min(|errataCves|, |errataIds|)]
                   then WithErrata(e1, Util.ValuesFor(errataCves, errataIds, Util.Min(|errataCves|, |errataIds|), id)) else e1
    requires e3 == if id in pkgCves[..Util.Min(|pkgCves|, |pkgIds|)]
                   then WithPackages(e2, Util.ValuesFor(pkgCves, pkgIds, Util.Min(|pkgCves|, |pkgIds|), id)) else e2
    ensures e3 == base.(cwes := JoinList(cweCves, cwes, id, base.cwes),
                        errataids := JoinList(errataCves, errataIds, id, base.errataids),
                        pkgids := JoinList(pkgCves, pkgIds, id, base.pkgids))
  {
  }

  /** A CVE loaded from the rows has no CWE, erratum or package that its join tables do
      not give it. */
  lemma CveListsStartEmpty(cache: Cache, c: Cache, rows: seq<CveRow>, i: nat,
                           cweCves: seq<i64>, cwes: seq<string>,
                           errataCves: seq<i64>, errataIds: seq<i64>,
                           pkgCves: seq<i64>, pkgIds: seq<i64>)
    requires i < |rows|
    requires c.cveDetail.Keys == (cache.cveDetail + Util.Collect(CvePairs(rows))).Keys
    requires forall id | id in c.cveDetail ::
              var base := (cache.cveDetail + Util.Collect(CvePairs(rows)))[id];
              c.cveDetail[id] == base.(cwes := JoinList(cweCves, cwes, id, base.cwes),
                                       errataids := JoinList(errataCves, errataIds, id, base.errataids),
                                       pkgids := JoinList(pkgCves, pkgIds, id, base.pkgids))
    ensures rows[i].id in c.cveDetail
    ensures rows[i].id !in cweCves ==> c.cveDetail[rows[i].id].cwes == []
    ensures rows[i].id !in errataCves ==> c.cveDetail[rows[i].id].errataids == []
    ensures rows[i].id !in pkgCves ==> c.cveDetail[rows[i].id].pkgids == []
  {
    var pairs := CvePairs(rows);
    var id := rows[i].id;
    assert pairs[i].0 == id;
    var loaded := Util.Collect(pairs);
    assert id in loaded;
    Util.CollectValue(pairs, id);
  }

  // ---------------------------------------------------------------------------
  // load

  /** Every query `load` runs, as the rows it returns; a `load_map`/`load_multimap` reads
      its key column and its value column by two separate queries. */
  datatype Snapshot = Snapshot(
    nameIds: seq<i64>, names: seq<string>,
    updateRows: seq<UpdateRow>, indexRows: seq<UpdateIndexRow>,
    evrRows: seq<EvrRow>,
    archIds: seq<i64>, arches: seq<string>, compatFrom: seq<i64>, compatTo: seq<i64>,
    packageRows: seq<PackageRow>,
    repoRows: seq<RepoRow>,
    pkgRepoPkgs: seq<i64>, pkgRepoRepos: seq<i64>,
    errataNameIds: seq<i64>, errataNames: seq<string>,
    pkgErrataPkgs: seq<i64>, pkgErrataErrata: seq<i64>,
    errataRepoErrata: seq<i64>, errataRepoRepos: seq<i64>,
    cveRows: seq<CveRow>,
    cweCves: seq<i64>, cwes: seq<string>,
    errataCves: seq<i64>, errataIds: seq<i64>,
    pkgCves: seq<i64>, pkgIds: seq<i64>,
    errataRows: seq<ErrataRow>,
    modules: seq<string>, streamIds: seq<i64>,
    stringIds: seq<i64>, strings: seq<Option<string>>)

  function ErrataPairs(rows: seq<ErrataRow>): (r: seq<(i64, Errata)>)
    ensures |r| == |rows|
    ensures forall i | 0 <= i < |rows| :: r[i] == (rows[i].id, rows[i].errata)
  {
    seq(|rows|, i requires 0 <= i < |rows| => (rows[i].id, rows[i].errata))
  }

  /** The name, update, EVR and arch indices of `c` are those the rows of `s` give. */
  ghost predicate IdentitiesLoaded(s: Snapshot, c: Cache) {
    && c.idToName == Util.LoadMap(s.nameIds, s.names)
    && Util.IsInverse(c.idToName, c.nameToId)
    && (forall n :: n in c.updates <==> n in UpdateNames(s.updateRows))
    && (forall n :: Util.Get(c.updates, n) ==
         Util.ValuesFor(UpdateNames(s.updateRows), UpdatePackages(s.updateRows), |s.updateRows|, n))
    && (forall n :: n in c.updatesIndex <==> n in IndexNames(s.indexRows))
    && (forall n: i64, e: i64 :: IndexAt(c.updatesIndex, n, e) ==
         if (n, e) in Util.Collect(IndexPairs(s.indexRows))
         then Some(Util.Collect(IndexPairs(s.indexRows))[(n, e)]) else None)
    && c.idToEvr == Util.Collect(EvrPairs(s.evrRows))
    && Util.IsInverse(c.idToEvr, c.evrToId)
    && c.idToArch == Util.LoadMap(s.archIds, s.arches)
    && Util.IsInverse(c.idToArch, c.archToId)
    && (forall a :: a in c.archCompat <==> a in s.compatFrom[..Util.Min(|s.compatFrom|, |s.compatTo|)])
    && (forall a | a in c.archCompat ::
         c.archCompat[a] == Util.ValuesFor(s.compatFrom, s.compatTo, Util.Min(|s.compatFrom|, |s.compatTo|), a))
  }

  /** The package and repository indices of `c` are those the rows of `s` give. */
  ghost predicate PackagesLoaded(s: Snapshot, c: Cache) {
    && c.pkgDetails == Util.Collect(PackagePairs(s.packageRows))
    && NevraIndexed(c.pkgDetails, c.pkgDetails.Keys, map[], c.nevraToPkgid)
    && GroupedBy(c.pkgDetails, SourceOf, c.pkgDetails.Keys, map[], c.srcPkgIdToPkgIds)
    && c.repoDetail == Util.Collect(RepoPairs(s.repoRows))
    && GroupedBy(c.repoDetail, LabelOf, c.repoDetail.Keys, map[], c.repolabelToIds)
    && GroupedBy(c.repoDetail, ProductOf, c.repoDetail.Keys, map[], c.productidToRepoids)
  }

  /** The join-table multimaps, CVEs, errata, modules and strings of `c` are those the rows of `s` give. */
  ghost predicate JoinsLoaded(s: Snapshot, c: Cache) {
    && (forall p :: p in c.pkgidToRepoids <==> p in s.pkgRepoPkgs[..Util.Min(|s.pkgRepoPkgs|, |s.pkgRepoRepos|)])
    && (forall p | p in c.pkgidToRepoids ::
         c.pkgidToRepoids[p] == Util.ValuesFor(s.pkgRepoPkgs, s.pkgRepoRepos, Util.Min(|s.pkgRepoPkgs|, |s.pkgRepoRepos|), p))
    && c.errataidToName == Util.LoadMap(s.errataNameIds, s.errataNames)
    && (forall p :: p in c.pkgidToErrataids <==> p in s.pkgErrataPkgs[..Util.Min(|s.pkgErrataPkgs|, |s.pkgErrataErrata|)])
    && (forall p | p in c.pkgidToErrataids ::
         c.pkgidToErrataids[p] == Util.ValuesFor(s.pkgErrataPkgs, s.pkgErrataErrata, Util.Min(|s.pkgErrataPkgs|, |s.pkgErrataErrata|), p))
    && (forall e :: e in c.errataidToRepoids <==> e in s.errataRepoErrata[..Util.Min(|s.errataRepoErrata|, |s.errataRepoRepos|)])
    && (forall e | e in c.errataidToRepoids ::
         c.errataidToRepoids[e] == Util.ValuesFor(s.errataRepoErrata, s.errataRepoRepos, Util.Min(|s.errataRepoErrata|, |s.errataRepoRepos|), e))
    && CvesLoaded(s, c.cveDetail)
    && c.errataDetail == Util.Collect(ErrataPairs(s.errataRows))
    && (forall m :: m in c.modulenameToId <==> m in s.modules[..Util.Min(|s.modules|, |s.streamIds|)])
    && (forall m | m in c.modulenameToId ::
         c.modulenameToId[m] == Util.ValuesFor(s.modules, s.streamIds, Util.Min(|s.modules|, |s.streamIds|), m))
    && c.strings == Util.LoadMap(s.stringIds, s.strings)
  }

  /** The CVEs are those of the `cve_detail` rows, each carrying the CWEs, advisories and
      packages its join rows list, in row order (or none when it has no join row). */
  ghost predicate CvesLoaded(s: Snapshot, cves: map<i64, Cve>) {
    && cves.Keys == Util.Collect(CvePairs(s.cveRows)).Keys
    && forall id | id in cves ::
         var base := Util.Collect(CvePairs(s.cveRows))[id];
         cves[id] == base.(cwes := JoinList(s.cweCves, s.cwes, id, base.cwes),
                           errataids := JoinList(s.errataCves, s.errataIds, id, base.errataids),
                           pkgids := JoinList(s.pkgCves, s.pkgIds, id, base.pkgids))
  }

  /** `load_names`, `load_updates`, `load_evr` and `load_arch` on an empty cache. */
  method LoadIdentities(s: Snapshot) returns (c: Cache)
    ensures c == EmptyCache().(idToName := c.idToName, nameToId := c.nameToId,
                               updates := c.updates, updatesIndex := c.updatesIndex,
                               idToEvr := c.idToEvr, evrToId := c.evrToId,
                               idToArch := c.idToArch, archToId := c.archToId, archCompat := c.archCompat)
    ensures IdentitiesLoaded(s, c)
  {
    var idToName := Util.LoadMap(s.nameIds, s.names);
    var nameToId := Util.Invert(idToName);
    var c1 := EmptyCache().(idToName := idToName, nameToId := nameToId);
    var c2 := LoadUpdates(c1, s.updateRows, s.indexRows);
    forall n
      ensures Util.Get(c2.updates, n) ==
                Util.ValuesFor(UpdateNames(s.updateRows), UpdatePackages(s.updateRows), |s.updateRows|, n)
    {
      assert Util.Get(c1.updates, n) == [];
    }
    var c3 := LoadEvr(c2, s.evrRows);
    var c4 := LoadArch(c3, s.archIds, s.arches, s.compatFrom, s.compatTo);
    forall a | a in c4.archCompat
      ensures c4.archCompat[a] == Util.ValuesFor(s.compatFrom, s.compatTo, Util.Min(|s.compatFrom|, |s.compatTo|), a)
    {
      assert Util.Get(c4.archCompat, a) == c4.archCompat[a];
      assert Util.Get(c3.archCompat, a) == [];
    }
    assert c4.updates == c2.updates && c4.updatesIndex == c2.updatesIndex;
    assert c4.idToName == idToName && c4.nameToId == nameToId;
    assert c4.idToEvr == c3.idToEvr && c4.evrToId == c3.evrToId;
    c := c4;
  }

  /** `load_pkg` and `load_repos` on a cache without packages or repositories. */
  method LoadPackagesAndRepos(c0: Cache, s: Snapshot) returns (c: Cache)
    requires c0.pkgDetails == map[] && c0.nevraToPkgid == map[] && c0.srcPkgIdToPkgIds == map[]
    requires c0.repoDetail == map[] && c0.repolabelToIds == map[] && c0.productidToRepoids == map[]
    ensures c == c0.(pkgDetails := c.pkgDetails, nevraToPkgid := c.nevraToPkgid,
                     srcPkgIdToPkgIds := c.srcPkgIdToPkgIds, repoDetail := c.repoDetail,
                     repolabelToIds := c.repolabelToIds, productidToRepoids := c.productidToRepoids)
    ensures PackagesLoaded(s, c)
  {
    var c1 := LoadPkg(c0, s.packageRows);
    Util.EmptyUnion(Util.Collect(PackagePairs(s.packageRows)));
    c := LoadRepos(c1, s.repoRows);
    Util.EmptyUnion(Util.Collect(RepoPairs(s.repoRows)));
  }

  /** The four join tables `load` reads itself, then `load_cve`, `load_errata`,
      `load_modules` and the `string` table, on a cache that holds none of them. */
  method LoadJoins(c0: Cache, s: Snapshot) returns (c: Cache)
    requires c0.cveDetail == map[] && c0.errataDetail == map[]
    ensures c == c0.(pkgidToRepoids := c.pkgidToRepoids, errataidToName := c.errataidToName,
                     pkgidToErrataids := c.pkgidToErrataids, errataidToRepoids := c.errataidToRepoids,
                     cveDetail := c.cveDetail, errataDetail := c.errataDetail,
                     modulenameToId := c.modulenameToId, strings := c.strings)
    ensures JoinsLoaded(s, c)
  {
    var pkgRepos := Util.LoadMultimap(s.pkgRepoPkgs, s.pkgRepoRepos);
    var errataNames := Util.LoadMap(s.errataNameIds, s.errataNames);
    var pkgErrata := Util.LoadMultimap(s.pkgErrataPkgs, s.pkgErrataErrata);
    var errataRepos := Util.LoadMultimap(s.errataRepoErrata, s.errataRepoRepos);
    var c1 := c0.(pkgidToRepoids := pkgRepos, errataidToName := errataNames,
                  pkgidToErrataids := pkgErrata, errataidToRepoids := errataRepos);
    var c2 := LoadCve(c1, s.cveRows, s.cweCves, s.cwes, s.errataCves, s.errataIds, s.pkgCves, s.pkgIds);
    Util.EmptyUnion(Util.Collect(CvePairs(s.cveRows)));
    // load_errata
    var errata := Util.InsertAll(c2.errataDetail, ErrataPairs(s.errataRows));
    Util.EmptyUnion(Util.Collect(ErrataPairs(s.errataRows)));
    // load_modules
    var modules := Util.LoadMultimap(s.modules, s.streamIds);
    var strings := Util.LoadMap(s.stringIds, s.strings);
    c := c2.(errataDetail := errata, modulenameToId := modules, strings := strings);
  }

  /** `load`: every loader in turn on an empty cache. Each inverse index is an inverse,
      each derived index covers exactly the details it was derived from, and each
      multimap lists the values of its key in row order. */
  method Load(s: Snapshot) returns (c: Cache)
    ensures IdentitiesLoaded(s, c) && PackagesLoaded(s, c) && JoinsLoaded(s, c)
  {
    var c1 := LoadIdentities(s);
    var c2 := LoadPackagesAndRepos(c1, s);
    c := LoadJoins(c2, s);
  }
}
