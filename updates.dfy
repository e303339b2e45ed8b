/** calc/updates.rs: answering an updates request from the `Cache`. The repositories in
    scope are chosen first, then the input packages that can be looked up, and for each
    of them the newer builds of its name that carry an advisory are reported, once per
    advisory and repository. */
module Updates {
  import opened Wrappers
  import opened Text
  import opened Cache
  import opened Prelude
  import Util

  datatype ModuleSpec = ModuleSpec(moduleName: string, moduleStream: string)

  datatype Request = Request(
    packageList: seq<string>,
    repositoryList: Option<seq<string>>,
    modulesList: Option<seq<ModuleSpec>>,
    releasever: Option<string>,
    basearch: Option<string>)

  /** One reported update: the newer build, its advisory and the repository it is in. */
  datatype PkgUpdate = PkgUpdate(
    package: Nevra, erratum: string,
    repository: Option<string>, basearch: Option<string>, releasever: string)

  datatype UpdatesPkgDetail = UpdatesPkgDetail(
    summary: Option<string>, description: Option<string>, availableUpdates: seq<PkgUpdate>)

  /** `UpdatesPkgDetail::default()`. */
  function DefaultDetail(): UpdatesPkgDetail { UpdatesPkgDetail(None, None, []) }

  /** The response a request fills in step by step. */
  class Response {
    var updateList: map<string, UpdatesPkgDetail>
    var repositoryList: Option<seq<string>>
    var releasever: Option<string>
    var basearch: Option<string>

    /** `Response::default()`. */
    constructor ()
      ensures updateList == map[] && repositoryList == None && releasever == None && basearch == None
    {
      updateList := map[];
      repositoryList := None;
      releasever := None;
      basearch := None;
    }
  }

  /** Why a request fails as a whole. `ArchNotFound` is the source's `Err`; an epoch that
      does not fit in an `i64` is a panic of `evr()` there. */
  datatype Error = ArchNotFound(arch: string) | EpochOverflow(epoch: string)

  // ---------------------------------------------------------------------------
  // Referential integrity

  /** The lookups the algorithm does with `[]`, which panic on a missing key, always find
      their key: every stored position is inside its update list, every package id in an
      update list has details, every id in a package's details resolves, and every id in a
      repository or advisory list is known. */
  ghost predicate WellFormed(c: Cache) {
    && (forall n, e | n in c.updatesIndex && n in c.updates && e in c.updatesIndex[n] ::
          c.updatesIndex[n][e] < |c.updates[n]|)
    && (forall n, i | n in c.updates && 0 <= i < |c.updates[n]| :: c.updates[n][i] in c.pkgDetails)
    && (forall p | p in c.pkgDetails ::
          && c.pkgDetails[p].nameId in c.idToName
          && c.pkgDetails[p].evrId in c.idToEvr
          && c.pkgDetails[p].archId in c.idToArch)
    && (forall p, i | p in c.pkgidToRepoids && 0 <= i < |c.pkgidToRepoids[p]| ::
          c.pkgidToRepoids[p][i] in c.repoDetail)
    && (forall p, i | p in c.pkgidToErrataids && 0 <= i < |c.pkgidToErrataids[p]| ::
          c.pkgidToErrataids[p][i] in c.errataidToRepoids && c.pkgidToErrataids[p][i] in c.errataidToName)
    && (forall l, i | l in c.repolabelToIds && 0 <= i < |c.repolabelToIds[l]| ::
          c.repolabelToIds[l][i] in c.repoDetail)
  }

  // ---------------------------------------------------------------------------
  // process_repositories

  /** The two repository attributes a request can select on. */
  datatype Field = ReleaseverField | BasearchField

  function FieldOf(r: Repo, f: Field): Option<string> {
    match f
    case ReleaseverField => r.releasever
    case BasearchField => r.basearch
  }

  /** The `retain` test: the attribute is the wanted value, or it is unset and the
      repository's URL contains the wanted value. */
  predicate Keeps(r: Repo, f: Field, want: string) {
    FieldOf(r, f) == Some(want) || (FieldOf(r, f).None? && Contains(r.url, want))
  }

  /** The ids of `ids` whose repository `Keeps`, in their order. */
  function Kept(c: Cache, ids: seq<i64>, f: Field, want: string): (r: seq<i64>)
    requires forall i | 0 <= i < |ids| :: ids[i] in c.repoDetail
  {
    if ids == [] then []
    else
      var init := Kept(c, ids[..|ids| - 1], f, want);
      if Keeps(c.repoDetail[ids[|ids| - 1]], f, want) then init + [ids[|ids| - 1]] else init
  }

  /** `Kept` keeps exactly the ids whose repository passes the test. */
  lemma {:induction false} KeptMembers(c: Cache, ids: seq<i64>, f: Field, want: string, x: i64)
    requires forall i | 0 <= i < |ids| :: ids[i] in c.repoDetail
    ensures x in Kept(c, ids, f, want) <==> x in ids && Keeps(c.repoDetail[x], f, want)
  {
    if ids != [] {
      var init := ids[..|ids| - 1];
      KeptMembers(c, init, f, want, x);
      assert ids == init + [ids[|ids| - 1]];
    }
  }

  /** `available_repo_ids.retain(..)`: the Vec filtered in place, order kept. */
  method Retain(c: Cache, ids: seq<i64>, f: Field, want: string) returns (r: seq<i64>)
    requires forall i | 0 <= i < |ids| :: ids[i] in c.repoDetail
    ensures r == Kept(c, ids, f, want)
    ensures forall i | 0 <= i < |r| :: r[i] in c.repoDetail
  {
    r := [];
    var i := 0;
    while i < |ids|
      invariant 0 <= i <= |ids|
      invariant r == Kept(c, ids[..i], f, want)
      invariant forall k | 0 <= k < |r| :: r[k] in c.repoDetail
    {
      assert ids[..i + 1][..i] == ids[..i];
      if Keeps(c.repoDetail[ids[i]], f, want) {
        r := r + [ids[i]];
      }
      i := i + 1;
    }
    assert ids[..i] == ids;
  }

  /** The ids listed under the labels, label by label, in list order. */
  function LabelIds(c: Cache, labels: seq<string>): seq<i64> {
    if labels == [] then []
    else LabelIds(c, labels[..|labels| - 1]) + Util.Get(c.repolabelToIds, labels[|labels| - 1])
  }

  /** A label contributes exactly the ids listed under it; an unknown label nothing. */
  lemma {:induction false} LabelIdsMembers(c: Cache, labels: seq<string>, x: i64)
    ensures x in LabelIds(c, labels) <==>
              exists l | l in labels :: l in c.repolabelToIds && x in c.repolabelToIds[l]
  {
    if labels != [] {
      var init := labels[..|labels| - 1];
      var last := labels[|labels| - 1];
      LabelIdsMembers(c, init, x);
      assert labels == init + [last];
      if x in Util.Get(c.repolabelToIds, last) {
        assert last in c.repolabelToIds && x in c.repolabelToIds[last];
      }
      if exists l | l in labels :: l in c.repolabelToIds && x in c.repolabelToIds[l] {
        var l :| l in labels && l in c.repolabelToIds && x in c.repolabelToIds[l];
        if l != last {
          assert l in init;
        }
      }
    }
  }

  lemma {:induction false} LabelIdsKnown(c: Cache, labels: seq<string>)
    requires WellFormed(c)
    ensures forall i | 0 <= i < |LabelIds(c, labels)| :: LabelIds(c, labels)[i] in c.repoDetail
  {
    if labels != [] {
      LabelIdsKnown(c, labels[..|labels| - 1]);
      var g := Util.Get(c.repolabelToIds, labels[|labels| - 1]);
      assert forall i | 0 <= i < |g| :: g[i] in c.repoDetail;
    }
  }

  /** The repositories a request starts from: those under its labels, or every one. */
  function StartRepos(c: Cache, data: Request): set<i64> {
    if data.repositoryList.Some? then set x | x in LabelIds(c, data.repositoryList.value)
    else c.repoDetail.Keys
  }

  /** Whether a repository survives the `releasever` and `basearch` filters the request asks for. */
  predicate Selected(r: Repo, data: Request) {
    && (data.releasever.Some? ==> Keeps(r, ReleaseverField, data.releasever.value))
    && (data.basearch.Some? ==> Keeps(r, BasearchField, data.basearch.value))
  }

  /** The repositories in scope for a request. */
  ghost function ScopedRepos(c: Cache, data: Request): set<i64>
    requires WellFormed(c)
  {
    LabelIdsKnown(c, data.repositoryList.GetOr([]));
    set x | x in StartRepos(c, data) && Selected(c.repoDetail[x], data)
  }

  /** `repo_detail.keys().collect()`: every key once, in hash order. */
  method KeysInSomeOrder(m: map<i64, Repo>) returns (ks: seq<i64>)
    ensures forall i | 0 <= i < |ks| :: ks[i] in m
    ensures forall k | k in m :: k in ks
  {
    ks := [];
    var todo := m.Keys;
    while todo != {}
      invariant todo <= m.Keys
      invariant forall i | 0 <= i < |ks| :: ks[i] in m
      invariant forall k | k in m && k !in todo :: k in ks
      decreases todo
    {
      var k :| k in todo;
      ks := ks + [k];
      todo := todo - {k};
    }
  }

  /** The label loop of `process_repositories`: the lists of the known labels, concatenated. */
  method LabelRepoIds(c: Cache, labels: seq<string>) returns (ids: seq<i64>)
    ensures ids == LabelIds(c, labels)
  {
    ids := [];
    var i := 0;
    while i < |labels|
      invariant 0 <= i <= |labels|
      invariant ids == LabelIds(c, labels[..i])
    {
      assert labels[..i + 1][..i] == labels[..i];
      if labels[i] in c.repolabelToIds {
        ids := ids + c.repolabelToIds[labels[i]];
      }
      i := i + 1;
    }
    assert labels[..i] == labels;
  }

  /** The two optional filters applied one after the other select the scoped repositories. */
  lemma FiltersSelect(c: Cache, data: Request, start: seq<i64>, mid: seq<i64>, ids: seq<i64>)
    requires WellFormed(c)
    requires forall i | 0 <= i < |start| :: start[i] in c.repoDetail
    requires Elements(start) == StartRepos(c, data)
    requires mid == if data.releasever.Some? then Kept(c, start, ReleaseverField, data.releasever.value) else start
    requires forall i | 0 <= i < |mid| :: mid[i] in c.repoDetail
    requires ids == if data.basearch.Some? then Kept(c, mid, BasearchField, data.basearch.value) else mid
    ensures Elements(ids) == ScopedRepos(c, data)
  {
    forall x
      ensures x in ids <==> x in StartRepos(c, data) && Selected(c.repoDetail[x], data)
    {
      if data.releasever.Some? {
        KeptMembers(c, start, ReleaseverField, data.releasever.value, x);
      }
      if data.basearch.Some? {
        KeptMembers(c, mid, BasearchField, data.basearch.value, x);
      }
    }
  }

  /** `process_repositories`: the label lists concatenated (or all repositories), then the
      `retain` filters the request asks for; the label list, releasever and basearch
      given are echoed into the response. */
  method ProcessRepositories(c: Cache, data: Request, response: Response) returns (available: set<i64>)
    requires WellFormed(c)
    modifies response
    ensures available == ScopedRepos(c, data)
    ensures response.updateList == old(response.updateList)
    ensures response.repositoryList == if data.repositoryList.Some? then data.repositoryList else old(response.repositoryList)
    ensures response.releasever == if data.releasever.Some? then data.releasever else old(response.releasever)
    ensures response.basearch == if data.basearch.Some? then data.basearch else old(response.basearch)
  {
    var ids: seq<i64>;
    if data.repositoryList.Some? {
      ids := LabelRepoIds(c, data.repositoryList.value);
      LabelIdsKnown(c, data.repositoryList.value);
      response.repositoryList := data.repositoryList;
    } else {
      ids := KeysInSomeOrder(c.repoDetail);
    }
    ghost var start := ids;
    assert Elements(start) == StartRepos(c, data);
    if data.releasever.Some? {
      ids := Retain(c, ids, ReleaseverField, data.releasever.value);
      response.releasever := data.releasever;
    }
    ghost var mid := ids;
    if data.basearch.Some? {
      ids := Retain(c, ids, BasearchField, data.basearch.value);
      response.basearch := data.basearch;
    }
    FiltersSelect(c, data, start, mid, ids);
    available := Elements(ids);
  }

  // ---------------------------------------------------------------------------
  // process_input_packages

  /** An input string is processed when it parses as a `Nevra` whose name has an id
      with an update index. */
  predicate Admitted(c: Cache, s: string) {
    && FromStr(s).Ok?
    && FromStr(s).value.name in c.nameToId
    && c.nameToId[FromStr(s).value.name] in c.updatesIndex
  }

  /** `pkgs` holds exactly the admitted strings of `list`, each with its parse. */
  ghost predicate AdmittedFrom(c: Cache, list: seq<string>, pkgs: map<string, Nevra>) {
    && (forall s :: s in pkgs <==> s in list && Admitted(c, s))
    && (forall s | s in pkgs :: FromStr(s) == Ok(pkgs[s]))
  }

  lemma AdmittedStep(c: Cache, list: seq<string>, s: string, parsed: Result<Nevra, ()>,
                     pkgs0: map<string, Nevra>, pkgs: map<string, Nevra>)
    requires AdmittedFrom(c, list, pkgs0) && parsed == FromStr(s)
    requires pkgs == if parsed.Ok? && parsed.value.name in c.nameToId && c.nameToId[parsed.value.name] in c.updatesIndex
                     then pkgs0[s := parsed.value] else pkgs0
    ensures AdmittedFrom(c, list + [s], pkgs)
  {
  }

  /** `process_input_packages`: the admitted strings of the request, each with its parse. */
  method ProcessInputPackages(c: Cache, data: Request) returns (pkgs: map<string, Nevra>)
    ensures forall s :: s in pkgs <==> s in data.packageList && Admitted(c, s)
    ensures forall s | s in pkgs :: FromStr(s) == Ok(pkgs[s])
    ensures forall s | s in pkgs :: Prelude.WellFormed(pkgs[s]) && ToString(pkgs[s]) == s
  {
    pkgs := map[];
    var i := 0;
    while i < |data.packageList|
      invariant 0 <= i <= |data.packageList|
      invariant AdmittedFrom(c, data.packageList[..i], pkgs)
    {
      var s := data.packageList[i];
      assert data.packageList[..i + 1] == data.packageList[..i] + [s];
      ghost var pkgs0 := pkgs;
      var parsed := FromStr(s);
      if parsed.Ok? {
        var nevra := parsed.value;
        if nevra.name in c.nameToId {
          if c.nameToId[nevra.name] in c.updatesIndex {
            pkgs := pkgs[s := nevra];
          }
        }
      }
      AdmittedStep(c, data.packageList[..i], s, parsed, pkgs0, pkgs);
      i := i + 1;
    }
    assert data.packageList[..i] == data.packageList;
    forall s | s in pkgs
      ensures Prelude.WellFormed(pkgs[s]) && ToString(pkgs[s]) == s
    {
      assert FromStr(s) == Ok(pkgs[s]);
    }
  }

  // ---------------------------------------------------------------------------
  // The lookups of process_updates

  /** What the chain of lookups for one input package ends in: it is skipped, the whole
      request fails, or the package's update list, its position there, its arch id and
      the arches compatible with it are found. */
  datatype Lookup =
    | Skip
    | Fail(err: Error)
    | Found(updates: seq<i64>, idx: nat, archId: i64, compat: seq<i64>)

  /** The lookups in the order the source does them: name id, update list, update index,
      `evr()` (which panics on an epoch that is not an `i64`), evr id, arch id (an `Err`
      when missing), compatible arches, position. */
  function LookupPackage(c: Cache, n: Nevra): Lookup {
    if n.name !in c.nameToId then Skip
    else
      var nameId := c.nameToId[n.name];
      if nameId !in c.updates || nameId !in c.updatesIndex then Skip
      else match EvrOf(n)
        case None => Fail(EpochOverflow(n.epoch.GetOr("")))
        case Some(evr) =>
          if evr !in c.evrToId then Skip
          else if n.arch !in c.archToId then Fail(ArchNotFound(n.arch))
          else
            var archId := c.archToId[n.arch];
            if archId !in c.archCompat then Skip
            else if c.evrToId[evr] !in c.updatesIndex[nameId] then Skip
            else Found(c.updates[nameId], c.updatesIndex[nameId][c.evrToId[evr]], archId, c.archCompat[archId])
  }

  /** The request fails on a package exactly when its name has an update list and index
      and then either its epoch overflows, or its evr is known and its arch is not. */
  lemma LookupFailsExactly(c: Cache, n: Nevra)
    ensures LookupPackage(c, n).Fail? <==>
              && n.name in c.nameToId
              && c.nameToId[n.name] in c.updates && c.nameToId[n.name] in c.updatesIndex
              && (EvrOf(n).None? || (EvrOf(n).value in c.evrToId && n.arch !in c.archToId))
    ensures LookupPackage(c, n).Fail? && EvrOf(n).Some? ==> LookupPackage(c, n).err == ArchNotFound(n.arch)
    ensures LookupPackage(c, n).Fail? && EvrOf(n).None? ==> LookupPackage(c, n).err.EpochOverflow?
  {
  }

  /** A found package sits inside its name's update list, at the position the index
      stores for its evr, and every id of that list has details. */
  lemma FoundInBounds(c: Cache, n: Nevra)
    requires WellFormed(c) && LookupPackage(c, n).Found?
    ensures var f := LookupPackage(c, n);
      && n.name in c.nameToId && EvrOf(n).Some?
      && f.updates == c.updates[c.nameToId[n.name]]
      && IndexAt(c.updatesIndex, c.nameToId[n.name], c.evrToId[EvrOf(n).value]) == Some(f.idx)
      && f.idx < |f.updates|
      && (forall i | 0 <= i < |f.updates| :: f.updates[i] in c.pkgDetails)
  {
  }

  // ---------------------------------------------------------------------------
  // build_nevra, related_products, valid_releasevers, get_repositories

  /** `build_nevra`: the package's name, evr and arch looked up by id. */
  function BuildNevra(c: Cache, u: i64): (n: Nevra)
    requires WellFormed(c) && u in c.pkgDetails
    ensures n.name == c.idToName[c.pkgDetails[u].nameId]
    ensures n.arch == c.idToArch[c.pkgDetails[u].archId]
  {
    var d := c.pkgDetails[u];
    FromNameEvrArch(c.idToName[d.nameId], c.idToEvr[d.evrId], c.idToArch[d.archId])
  }

  /** The built `Nevra` has the package's stored evr. */
  lemma BuildNevraEvr(c: Cache, u: i64)
    requires WellFormed(c) && u in c.pkgDetails
    ensures EvrOf(BuildNevra(c, u)) == Some(c.idToEvr[c.pkgDetails[u].evrId])
  {
    var d := c.pkgDetails[u];
    EvrOfFromNameEvrArch(c.idToName[d.nameId], c.idToEvr[d.evrId], c.idToArch[d.archId]);
  }

  /** The repositories a package is in. */
  function PkgRepos(c: Cache, u: i64): set<i64> {
    Elements(Util.Get(c.pkgidToRepoids, u))
  }

  /** The elements of a list, as a set. */
  function Elements<T>(s: seq<T>): set<T> {
    set x | x in s
  }

  /** `related_products`: the product ids of the given repositories. */
  method RelatedProducts(c: Cache, orig: set<i64>) returns (products: set<Option<i64>>)
    requires forall r | r in orig :: r in c.repoDetail
    ensures products == set r | r in orig :: c.repoDetail[r].productId
  {
    products := {};
    var todo := orig;
    while todo != {}
      invariant todo <= orig
      invariant products == set r | r in orig - todo :: c.repoDetail[r].productId
      decreases todo
    {
      var r :| r in todo;
      products := products + {c.repoDetail[r].productId};
      todo := todo - {r};
    }
    assert orig - todo == orig;
  }

  /** `valid_releasevers`: the releasevers of the given repositories. */
  method ValidReleasevers(c: Cache, orig: set<i64>) returns (vers: set<Option<string>>)
    requires forall r | r in orig :: r in c.repoDetail
    ensures vers == set r | r in orig :: c.repoDetail[r].releasever
  {
    vers := {};
    var todo := orig;
    while todo != {}
      invariant todo <= orig
      invariant vers == set r | r in orig - todo :: c.repoDetail[r].releasever
      decreases todo
    {
      var r :| r in todo;
      vers := vers + {c.repoDetail[r].releasever};
      todo := todo - {r};
    }
    assert orig - todo == orig;
  }

  /** The repositories the advisories are published in. */
  function ErrataRepos(c: Cache, es: seq<i64>): set<i64> {
    if es == [] then {}
    else ErrataRepos(c, es[..|es| - 1]) + Elements(Util.Get(c.errataidToRepoids, es[|es| - 1]))
  }

  /** A repository belongs to the advisories exactly when one of them lists it. */
  lemma {:induction false} ErrataReposMembers(c: Cache, es: seq<i64>, r: i64)
    ensures r in ErrataRepos(c, es) <==>
              exists i | 0 <= i < |es| :: es[i] in c.errataidToRepoids && r in c.errataidToRepoids[es[i]]
  {
    if es != [] {
      var init := es[..|es| - 1];
      ErrataReposMembers(c, init, r);
      if exists i | 0 <= i < |es| :: es[i] in c.errataidToRepoids && r in c.errataidToRepoids[es[i]] {
        var i :| 0 <= i < |es| && es[i] in c.errataidToRepoids && r in c.errataidToRepoids[es[i]];
        if i < |init| {
          assert init[i] == es[i];
        }
      }
      if r in ErrataRepos(c, init) {
        var i :| 0 <= i < |init| && init[i] in c.errataidToRepoids && r in c.errataidToRepoids[init[i]];
        assert es[i] == init[i];
      }
    }
  }

  /** What `get_repositories` returns: the package's repositories that some advisory is
      published in and that are in scope, whose releasever and product are among those
      of the installed package's repositories. */
  function Repositories(c: Cache, u: i64, es: seq<i64>, products: set<Option<i64>>,
                        available: set<i64>, vers: set<Option<string>>): set<i64>
  {
    set r | r in PkgRepos(c, u) && r in ErrataRepos(c, es) && r in available && r in c.repoDetail
              && c.repoDetail[r].releasever in vers && c.repoDetail[r].productId in products
  }

  /** `get_repositories`. */
  method GetRepositories(c: Cache, products: set<Option<i64>>, u: i64, es: seq<i64>,
                         available: set<i64>, vers: set<Option<string>>) returns (repos: set<i64>)
    requires WellFormed(c)
    requires forall i | 0 <= i < |es| :: es[i] in c.errataidToRepoids
    ensures repos == Repositories(c, u, es, products, available, vers)
  {
    var errataRepos: set<i64> := {};
    var i := 0;
    while i < |es|
      invariant 0 <= i <= |es|
      invariant errataRepos == ErrataRepos(c, es[..i])
    {
      assert es[..i + 1][..i] == es[..i];
      errataRepos := errataRepos + set r | r in c.errataidToRepoids[es[i]];
      i := i + 1;
    }
    assert es[..i] == es;
    var pkgRepos := if u in c.pkgidToRepoids then set r | r in c.pkgidToRepoids[u] else {};
    var candidates := pkgRepos * errataRepos * available;
    assert forall r | r in candidates :: r in c.repoDetail;
    repos := {};
    var todo := candidates;
    while todo != {}
      invariant todo <= candidates
      invariant repos == set r | r in candidates - todo && c.repoDetail[r].releasever in vers
                                   && c.repoDetail[r].productId in products
      decreases todo
    {
      var r :| r in todo;
      var detail := c.repoDetail[r];
      if detail.releasever in vers && detail.productId in products {
        repos := repos + {r};
      }
      todo := todo - {r};
    }
    assert candidates - todo == candidates;
  }

  // ---------------------------------------------------------------------------
  // The records process_updates pushes

  /** What a found package's records are filtered by: its arch id and compatible arches,
      the products and releasevers of its own repositories, and the scoped repositories. */
  datatype Scope = Scope(archId: i64, compat: seq<i64>, products: set<Option<i64>>,
                         releasevers: set<Option<string>>, available: set<i64>)

  /** The arch test of a candidate: the installed arch or one compatible with it. */
  predicate ArchOk(c: Cache, u: i64, sc: Scope)
    requires u in c.pkgDetails
  {
    c.pkgDetails[u].archId == sc.archId || c.pkgDetails[u].archId in sc.compat
  }

  /** The repositories `get_repositories` gives for candidate `u` and one advisory. */
  function ReposFor(c: Cache, u: i64, e: i64, sc: Scope): set<i64> {
    Repositories(c, u, [e], sc.products, sc.available, sc.releasevers)
  }

  /** The record pushed for a candidate's `Nevra`, advisory `e` and repository `r`. */
  function Record(c: Cache, nevra: Nevra, e: i64, r: i64): PkgUpdate
    requires e in c.errataidToName && r in c.repoDetail
  {
    var repo := c.repoDetail[r];
    PkgUpdate(nevra, c.errataidToName[e], Some(repo.repoLabel), repo.basearch, repo.releasever.GetOr(""))
  }

  /** The records for one advisory and a set of repositories. */
  ghost function RepoRecords(c: Cache, nevra: Nevra, e: i64, repos: set<i64>): set<PkgUpdate>
    requires e in c.errataidToName
  {
    set r | r in repos && r in c.repoDetail :: Record(c, nevra, e, r)
  }

  /** The records for candidate `u` and the advisories `es`, advisory after advisory. */
  ghost function ErrataRecords(c: Cache, u: i64, es: seq<i64>, sc: Scope): set<PkgUpdate>
    requires WellFormed(c) && u in c.pkgDetails
    requires forall i | 0 <= i < |es| :: es[i] in c.errataidToName
  {
    if es == [] then {}
    else
      var e := es[|es| - 1];
      ErrataRecords(c, u, es[..|es| - 1], sc) + RepoRecords(c, BuildNevra(c, u), e, ReposFor(c, u, e, sc))
  }

  /** The records for one candidate: none unless it has advisories and a fitting arch. */
  ghost function CandidateStep(c: Cache, u: i64, sc: Scope): set<PkgUpdate>
    requires WellFormed(c) && u in c.pkgDetails
  {
    if u in c.pkgidToErrataids && ArchOk(c, u, sc) then ErrataRecords(c, u, c.pkgidToErrataids[u], sc)
    else {}
  }

  /** The records for a list of candidates, candidate after candidate. */
  ghost function CandidateRecords(c: Cache, cands: seq<i64>, sc: Scope): set<PkgUpdate>
    requires WellFormed(c)
    requires forall i | 0 <= i < |cands| :: cands[i] in c.pkgDetails
  {
    if cands == [] then {}
    else CandidateRecords(c, cands[..|cands| - 1], sc) + CandidateStep(c, cands[|cands| - 1], sc)
  }

  lemma RepoRecordsStep(c: Cache, nevra: Nevra, e: i64, repos: set<i64>, todo: set<i64>, r: i64)
    requires e in c.errataidToName && r in todo && r in c.repoDetail
    ensures RepoRecords(c, nevra, e, repos - (todo - {r})) ==
            RepoRecords(c, nevra, e, repos - todo) + (if r in repos then {Record(c, nevra, e, r)} else {})
  {
  }

  /** The innermost loop: one record per repository, in hash order. */
  method PushRecords(c: Cache, nevra: Nevra, e: i64, repos: set<i64>) returns (pushed: seq<PkgUpdate>)
    requires e in c.errataidToName && forall r | r in repos :: r in c.repoDetail
    ensures Elements(pushed) == RepoRecords(c, nevra, e, repos)
    ensures |pushed| == |repos|
  {
    pushed := [];
    var todo := repos;
    while todo != {}
      invariant todo <= repos
      invariant Elements(pushed) == RepoRecords(c, nevra, e, repos - todo)
      invariant |pushed| == |repos - todo|
      decreases todo
    {
      var r :| r in todo;
      RepoRecordsStep(c, nevra, e, repos, todo, r);
      Util.RemovedCount(repos, todo, r);
      ElementsAppend(pushed, [Record(c, nevra, e, r)]);
      pushed := pushed + [Record(c, nevra, e, r)];
      todo := todo - {r};
    }
    assert repos - todo == repos;
  }

  /** The advisory loop for one candidate. */
  method PushErrata(c: Cache, u: i64, nevra: Nevra, es: seq<i64>, sc: Scope) returns (pushed: seq<PkgUpdate>)
    requires WellFormed(c) && u in c.pkgDetails && nevra == BuildNevra(c, u)
    requires forall i | 0 <= i < |es| :: es[i] in c.errataidToName && es[i] in c.errataidToRepoids
    ensures Elements(pushed) == ErrataRecords(c, u, es, sc)
  {
    pushed := [];
    var j := 0;
    while j < |es|
      invariant 0 <= j <= |es|
      invariant Elements(pushed) == ErrataRecords(c, u, es[..j], sc)
    {
      var e := es[j];
      ErrataRecordsSnoc(c, u, es, j, sc);
      var repos := GetRepositories(c, sc.products, u, [e], sc.available, sc.releasevers);
      var more := PushRecords(c, nevra, e, repos);
      ElementsAppend(pushed, more);
      pushed := pushed + more;
      j := j + 1;
    }
    assert es[..j] == es;
  }

  lemma ErrataRecordsSnoc(c: Cache, u: i64, es: seq<i64>, j: nat, sc: Scope)
    requires WellFormed(c) && u in c.pkgDetails && j < |es|
    requires forall i | 0 <= i < |es| :: es[i] in c.errataidToName
    ensures ErrataRecords(c, u, es[..j + 1], sc) ==
            ErrataRecords(c, u, es[..j], sc) + RepoRecords(c, BuildNevra(c, u), es[j], ReposFor(c, u, es[j], sc))
  {
    assert es[..j + 1][..j] == es[..j];
  }

  lemma CandidateRecordsSnoc(c: Cache, cands: seq<i64>, i: nat, sc: Scope)
    requires WellFormed(c) && i < |cands|
    requires forall j | 0 <= j < |cands| :: cands[j] in c.pkgDetails
    ensures CandidateRecords(c, cands[..i + 1], sc) == CandidateRecords(c, cands[..i], sc) + CandidateStep(c, cands[i], sc)
  {
    assert cands[..i + 1][..i] == cands[..i];
  }

  lemma ElementsAppend<T>(a: seq<T>, b: seq<T>)
    ensures Elements(a + b) == Elements(a) + Elements(b)
  {
  }

  /** The candidate loop over `updates[idx + 1..]`. */
  method CollectUpdates(c: Cache, cands: seq<i64>, sc: Scope) returns (pushed: seq<PkgUpdate>)
    requires WellFormed(c)
    requires forall i | 0 <= i < |cands| :: cands[i] in c.pkgDetails
    ensures Elements(pushed) == CandidateRecords(c, cands, sc)
  {
    pushed := [];
    var i := 0;
    while i < |cands|
      invariant 0 <= i <= |cands|
      invariant Elements(pushed) == CandidateRecords(c, cands[..i], sc)
    {
      var u := cands[i];
      CandidateRecordsSnoc(c, cands, i, sc);
      var more: seq<PkgUpdate> := [];
      if u in c.pkgidToErrataids {
        var es := c.pkgidToErrataids[u];
        var archId := c.pkgDetails[u].archId;
        if archId == sc.archId || archId in sc.compat {
          var nevra := BuildNevra(c, u);
          more := PushErrata(c, u, nevra, es, sc);
        }
      }
      assert Elements(more) == CandidateStep(c, u, sc);
      ElementsAppend(pushed, more);
      pushed := pushed + more;
      i := i + 1;
    }
    assert cands[..i] == cands;
  }

  /** A record of a candidate list comes from some candidate with advisories and a
      fitting arch, one of its advisories, and a repository `get_repositories` gives. */
  lemma {:induction false} CandidateRecordSource(c: Cache, cands: seq<i64>, sc: Scope, x: PkgUpdate)
      returns (k: nat, e: i64, r: i64)
    requires WellFormed(c)
    requires forall i | 0 <= i < |cands| :: cands[i] in c.pkgDetails
    requires x in CandidateRecords(c, cands, sc)
    ensures k < |cands| && cands[k] in c.pkgidToErrataids && ArchOk(c, cands[k], sc)
    ensures e in c.pkgidToErrataids[cands[k]] && e in c.errataidToName
    ensures r in ReposFor(c, cands[k], e, sc) && r in c.repoDetail
    ensures x == Record(c, BuildNevra(c, cands[k]), e, r)
  {
    var init := cands[..|cands| - 1];
    if x in CandidateRecords(c, init, sc) {
      k, e, r := CandidateRecordSource(c, init, sc, x);
      assert init[k] == cands[k];
    } else {
      k := |cands| - 1;
      var u := cands[k];
      var j;
      j, r := ErrataRecordSource(c, u, c.pkgidToErrataids[u], sc, x);
      e := c.pkgidToErrataids[u][j];
    }
  }

  lemma {:induction false} ErrataRecordSource(c: Cache, u: i64, es: seq<i64>, sc: Scope, x: PkgUpdate)
      returns (j: nat, r: i64)
    requires WellFormed(c) && u in c.pkgDetails
    requires forall i | 0 <= i < |es| :: es[i] in c.errataidToName
    requires x in ErrataRecords(c, u, es, sc)
    ensures j < |es| && r in ReposFor(c, u, es[j], sc) && r in c.repoDetail
    ensures x == Record(c, BuildNevra(c, u), es[j], r)
  {
    var init := es[..|es| - 1];
    if x in ErrataRecords(c, u, init, sc) {
      j, r := ErrataRecordSource(c, u, init, sc, x);
      assert init[j] == es[j];
    } else {
      j := |es| - 1;
      r :| r in ReposFor(c, u, es[j], sc) && r in c.repoDetail && x == Record(c, BuildNevra(c, u), es[j], r);
    }
  }

  /** Conversely every such candidate, advisory and repository gives a record. */
  lemma {:induction false} CandidateRecordFrom(c: Cache, cands: seq<i64>, sc: Scope, k: nat, e: i64, r: i64)
    requires WellFormed(c)
    requires forall i | 0 <= i < |cands| :: cands[i] in c.pkgDetails
    requires k < |cands| && cands[k] in c.pkgidToErrataids && ArchOk(c, cands[k], sc)
    requires e in c.pkgidToErrataids[cands[k]] && e in c.errataidToName
    requires r in ReposFor(c, cands[k], e, sc) && r in c.repoDetail
    ensures Record(c, BuildNevra(c, cands[k]), e, r) in CandidateRecords(c, cands, sc)
  {
    var init := cands[..|cands| - 1];
    if k < |init| {
      assert init[k] == cands[k];
      CandidateRecordFrom(c, init, sc, k, e, r);
    } else {
      var es := c.pkgidToErrataids[cands[k]];
      var j :| 0 <= j < |es| && es[j] == e;
      ErrataRecordFrom(c, cands[k], es, sc, j, r);
    }
  }

  lemma {:induction false} ErrataRecordFrom(c: Cache, u: i64, es: seq<i64>, sc: Scope, j: nat, r: i64)
    requires WellFormed(c) && u in c.pkgDetails
    requires forall i | 0 <= i < |es| :: es[i] in c.errataidToName
    requires j < |es| && r in ReposFor(c, u, es[j], sc) && r in c.repoDetail
    ensures Record(c, BuildNevra(c, u), es[j], r) in ErrataRecords(c, u, es, sc)
  {
    var init := es[..|es| - 1];
    if j < |init| {
      assert init[j] == es[j];
      ErrataRecordFrom(c, u, init, sc, j, r);
    }
  }

  // ---------------------------------------------------------------------------
  // process_updates

  /** Every repository of a package is known. */
  lemma PkgReposKnown(c: Cache, u: i64)
    requires WellFormed(c)
    ensures forall r | r in PkgRepos(c, u) :: r in c.repoDetail
  {
    forall r | r in PkgRepos(c, u)
      ensures r in c.repoDetail
    {
      var i :| 0 <= i < |c.pkgidToRepoids[u]| && c.pkgidToRepoids[u][i] == r;
    }
  }

  /** The scope of a found package whose installed build has id `current`. */
  ghost function ScopeOf(c: Cache, current: i64, archId: i64, compat: seq<i64>, available: set<i64>): Scope
    requires WellFormed(c)
  {
    PkgReposKnown(c, current);
    var orig := PkgRepos(c, current);
    Scope(archId, compat, set r | r in orig :: c.repoDetail[r].productId,
          set r | r in orig :: c.repoDetail[r].releasever, available)
  }

  /** The records of the builds after the installed one at position `idx` of `ups`. */
  ghost function OlderRecords(c: Cache, ups: seq<i64>, idx: nat, archId: i64, compat: seq<i64>,
                              available: set<i64>): set<PkgUpdate>
    requires WellFormed(c) && idx < |ups|
    requires forall i | 0 <= i < |ups| :: ups[i] in c.pkgDetails
  {
    CandidateRecords(c, ups[idx + 1..], ScopeOf(c, ups[idx], archId, compat, available))
  }

  /** The records `process_updates` pushes for input package `n`: none unless the
      lookups find it and it is not the newest build of its name; otherwise those of the
      builds after it in its update list. */
  ghost function PackageRecords(c: Cache, n: Nevra, available: set<i64>): set<PkgUpdate>
    requires WellFormed(c)
  {
    var f := LookupPackage(c, n);
    if !f.Found? then {}
    else
      FoundInBounds(c, n);
      var current := f.updates[f.idx];
      if f.updates[|f.updates| - 1] == current then {}
      else OlderRecords(c, f.updates, f.idx, f.archId, f.compat, available)
  }

  /** The records of a found package that is not the newest build of its name are those
      of the builds after it, filtered by its scope. */
  lemma PackageRecordsFound(c: Cache, n: Nevra, available: set<i64>)
    requires WellFormed(c) && LookupPackage(c, n).Found?
    ensures var f := LookupPackage(c, n);
      f.idx < |f.updates| &&
      PackageRecords(c, n, available) ==
        if f.updates[|f.updates| - 1] == f.updates[f.idx] then {}
        else OlderRecords(c, f.updates, f.idx, f.archId, f.compat, available)
  {
    FoundInBounds(c, n);
  }

  /** `PackageRecordsFound` for an installed build that is not the newest. */
  lemma PackageRecordsOfOlder(c: Cache, n: Nevra, available: set<i64>)
    requires WellFormed(c) && LookupPackage(c, n).Found?
    requires var f := LookupPackage(c, n); f.idx < |f.updates| && f.updates[|f.updates| - 1] != f.updates[f.idx]
    ensures var f := LookupPackage(c, n);
      PackageRecords(c, n, available) ==
        OlderRecords(c, f.updates, f.idx, f.archId, f.compat, available)
  {
    PackageRecordsFound(c, n, available);
  }

  /** Membership carried over an equality, proved where nothing is known about the sets. */
  lemma InEqual<T>(x: T, a: set<T>, b: set<T>)
    requires x in a && a == b
    ensures x in b
  {
  }

  /** The loop body of `process_updates` after the lookups found the installed build at
      position `idx` of `ups`: nothing when it is the newest build, otherwise the
      records of the builds after it. */
  method ProcessFound(c: Cache, ups: seq<i64>, idx: nat, archId: i64, compat: seq<i64>, available: set<i64>)
      returns (pushed: seq<PkgUpdate>)
    requires WellFormed(c) && idx < |ups|
    requires forall i | 0 <= i < |ups| :: ups[i] in c.pkgDetails
    ensures ups[|ups| - 1] == ups[idx] ==> pushed == []
    ensures Elements(pushed) ==
              if ups[|ups| - 1] == ups[idx] then {}
              else OlderRecords(c, ups, idx, archId, compat, available)
  {
    pushed := [];
    assert Elements(pushed) == {};
    var current := ups[idx];
    if ups[|ups| - 1] != current {
      var orig := if current in c.pkgidToRepoids then Elements(c.pkgidToRepoids[current]) else {};
      assert orig == PkgRepos(c, current);
      PkgReposKnown(c, current);
      var products := RelatedProducts(c, orig);
      var vers := ValidReleasevers(c, orig);
      assert Scope(archId, compat, products, vers, available) == ScopeOf(c, current, archId, compat, available);
      pushed := CollectUpdates(c, ups[idx + 1..], Scope(archId, compat, products, vers, available));
    }
  }

  /** The loop body of `process_updates` for one package, up to the pushes: the lookups
      and the records. */
  method ProcessPackage(c: Cache, n: Nevra, available: set<i64>) returns (f: Lookup, pushed: seq<PkgUpdate>)
    requires WellFormed(c)
    ensures f == LookupPackage(c, n)
    ensures Elements(pushed) == PackageRecords(c, n, available)
  {
    f := LookupPackage(c, n);
    pushed := [];
    if f.Found? {
      FoundInBounds(c, n);
      PackageRecordsFound(c, n, available);
      pushed := ProcessFound(c, f.updates, f.idx, f.archId, f.compat, available);
    } else {
      assert Elements(pushed) == {};
    }
  }

  /** The detail stored for `s`, or the default one `entry().or_default()` would insert. */
  function DetailOf(m: map<string, UpdatesPkgDetail>, s: string): UpdatesPkgDetail {
    if s in m then m[s] else DefaultDetail()
  }

  /** The input packages whose lookups find them. */
  ghost function FoundSet(c: Cache, pkgs: map<string, Nevra>): set<string> {
    set s | s in pkgs && LookupPackage(c, pkgs[s]).Found?
  }

  /** The records of every input package. */
  ghost function AllRecords(c: Cache, pkgs: map<string, Nevra>, available: set<i64>): map<string, set<PkgUpdate>>
    requires WellFormed(c)
  {
    map s | s in pkgs :: PackageRecords(c, pkgs[s], available)
  }

  /** After the packages in `done` are processed, `m` is `m0` with an entry for each
      `found` one, holding in addition the records `recs` gives for it. */
  ghost predicate Appended(done: set<string>, found: set<string>, recs: map<string, set<PkgUpdate>>,
                           m0: map<string, UpdatesPkgDetail>, m: map<string, UpdatesPkgDetail>)
    requires done <= recs.Keys
  {
    && (forall s :: s in m <==> s in m0 || (s in done && s in found))
    && (forall s | s in m ::
          && m[s].summary == DetailOf(m0, s).summary
          && m[s].description == DetailOf(m0, s).description
          && Elements(m[s].availableUpdates) ==
             Elements(DetailOf(m0, s).availableUpdates) + (if s in done then recs[s] else {}))
  }

  lemma AppendedStep(done: set<string>, found: set<string>, recs: map<string, set<PkgUpdate>>,
                     m0: map<string, UpdatesPkgDetail>, m: map<string, UpdatesPkgDetail>,
                     s: string, pushed: seq<PkgUpdate>, m1: map<string, UpdatesPkgDetail>)
    requires done <= recs.Keys && s in recs && s !in done
    requires Appended(done, found, recs, m0, m)
    requires Elements(pushed) == recs[s] && (s !in found ==> recs[s] == {})
    requires m1 == if s in found then m[s := DetailOf(m, s).(availableUpdates := DetailOf(m, s).availableUpdates + pushed)] else m
    ensures Appended(done + {s}, found, recs, m0, m1)
  {
    var d := DetailOf(m, s);
    assert s in m <==> s in m0;
    assert d.summary == DetailOf(m0, s).summary && d.description == DetailOf(m0, s).description;
    assert Elements(d.availableUpdates) == Elements(DetailOf(m0, s).availableUpdates);
    if s in found {
      assert Elements(d.availableUpdates + pushed) == Elements(d.availableUpdates) + Elements(pushed);
    }
  }

  /** `process_updates`: every package in hash order; the first one whose lookups fail
      fails the whole call. */
  method ProcessUpdates(c: Cache, pkgs: map<string, Nevra>, available: set<i64>, response: Response)
      returns (res: Result<(), Error>)
    requires WellFormed(c)
    modifies response
    ensures res.Err? <==> exists s | s in pkgs :: LookupPackage(c, pkgs[s]).Fail?
    ensures res.Err? ==> exists s | s in pkgs :: LookupPackage(c, pkgs[s]) == Fail(res.error)
    ensures res.Ok? ==> Appended(pkgs.Keys, FoundSet(c, pkgs), AllRecords(c, pkgs, available),
                                 old(response.updateList), response.updateList)
    ensures response.repositoryList == old(response.repositoryList)
    ensures response.releasever == old(response.releasever) && response.basearch == old(response.basearch)
  {
    var todo := pkgs.Keys;
    ghost var done: set<string> := {};
    ghost var found := FoundSet(c, pkgs);
    ghost var recs := AllRecords(c, pkgs, available);
    var updateList := response.updateList;
    var failure: Option<Error> := None;
    while todo != {}
      invariant done + todo == pkgs.Keys && done !! todo && failure.None?
      invariant forall s | s in done :: !LookupPackage(c, pkgs[s]).Fail?
      invariant Appended(done, found, recs, old(response.updateList), updateList)
      modifies {}
      decreases todo
    {
      var s :| s in todo;
      var f, pushed := ProcessPackage(c, pkgs[s], available);
      if f.Fail? {
        failure := Some(f.err);
        break;
      }
      ghost var m := updateList;
      if f.Found? {
        var detail := DetailOf(updateList, s);
        updateList := updateList[s := detail.(availableUpdates := detail.availableUpdates + pushed)];
      }
      assert s in found <==> f.Found?;
      AppendedStep(done, found, recs, old(response.updateList), m, s, pushed, updateList);
      todo := todo - {s};
      done := done + {s};
    }
    response.updateList := updateList;
    if failure.Some? {
      return Err(failure.value);
    }
    assert done == pkgs.Keys;
    return Ok(());
  }

  // ---------------------------------------------------------------------------
  // calc_updates

  /** The update list has an entry for exactly the admitted input strings. */
  ghost predicate AnswersKeys(c: Cache, data: Request, m: map<string, UpdatesPkgDetail>) {
    forall s :: s in m <==> s in data.packageList && Admitted(c, s)
  }

  /** Each entry has no summary or description and the records `PackageRecords`
      describes for its string's parse. */
  ghost predicate AnswersValues(c: Cache, data: Request, m: map<string, UpdatesPkgDetail>)
    requires WellFormed(c) && AnswersKeys(c, data, m)
  {
    forall s | s in m ::
      && m[s].summary == None && m[s].description == None
      && Elements(m[s].availableUpdates) == PackageRecords(c, FromStr(s).value, ScopedRepos(c, data))
  }

  /** What a response's update list holds for a request. */
  ghost predicate Answers(c: Cache, data: Request, m: map<string, UpdatesPkgDetail>)
    requires WellFormed(c)
  {
    AnswersKeys(c, data, m) && AnswersValues(c, data, m)
  }

  /** `pkgs` is what `process_input_packages` gives for the request. */
  ghost predicate AdmittedPackages(c: Cache, data: Request, pkgs: map<string, Nevra>) {
    && (forall s :: s in pkgs <==> s in data.packageList && Admitted(c, s))
    && (forall s | s in pkgs :: FromStr(s) == Ok(pkgs[s]))
  }

  /** `m0` has an empty entry for each of `pkgs` and nothing else. */
  ghost predicate EmptyEntries(pkgs: map<string, Nevra>, m0: map<string, UpdatesPkgDetail>) {
    && (forall s :: s in m0 <==> s in pkgs)
    && (forall s | s in m0 :: m0[s] == DefaultDetail())
  }

  lemma AnswersFrom(c: Cache, data: Request, pkgs: map<string, Nevra>,
                    m0: map<string, UpdatesPkgDetail>, m: map<string, UpdatesPkgDetail>)
    requires WellFormed(c) && AdmittedPackages(c, data, pkgs) && EmptyEntries(pkgs, m0)
    requires Appended(pkgs.Keys, FoundSet(c, pkgs), AllRecords(c, pkgs, ScopedRepos(c, data)), m0, m)
    ensures Answers(c, data, m)
  {
    AnswersKeysFrom(c, data, pkgs, FoundSet(c, pkgs), AllRecords(c, pkgs, ScopedRepos(c, data)), m0, m);
    AnswersValuesFrom(c, data, pkgs, m0, m);
  }

  lemma AnswersKeysFrom(c: Cache, data: Request, pkgs: map<string, Nevra>, found: set<string>,
                        recs: map<string, set<PkgUpdate>>,
                        m0: map<string, UpdatesPkgDetail>, m: map<string, UpdatesPkgDetail>)
    requires forall s :: s in pkgs <==> s in data.packageList && Admitted(c, s)
    requires forall s :: s in m0 <==> s in pkgs
    requires found <= pkgs.Keys && pkgs.Keys <= recs.Keys
    requires Appended(pkgs.Keys, found, recs, m0, m)
    ensures AnswersKeys(c, data, m)
  {
  }

  lemma AnswerAt(c: Cache, available: set<i64>, pkgs: map<string, Nevra>, s: string,
                 d0: UpdatesPkgDetail, d: UpdatesPkgDetail)
    requires WellFormed(c) && s in pkgs && FromStr(s) == Ok(pkgs[s]) && d0 == DefaultDetail()
    requires Elements(d.availableUpdates) == Elements(d0.availableUpdates) + AllRecords(c, pkgs, available)[s]
    ensures Elements(d.availableUpdates) == PackageRecords(c, FromStr(s).value, available)
  {
    assert d0.availableUpdates == [];
    Util.EmptySetUnion(Elements(d0.availableUpdates), AllRecords(c, pkgs, available)[s]);
  }

  lemma AnswersValuesFrom(c: Cache, data: Request, pkgs: map<string, Nevra>,
                          m0: map<string, UpdatesPkgDetail>, m: map<string, UpdatesPkgDetail>)
    requires WellFormed(c) && AnswersKeys(c, data, m)
    requires forall s :: s in pkgs <==> s in data.packageList && Admitted(c, s)
    requires forall s | s in pkgs :: FromStr(s) == Ok(pkgs[s])
    requires forall s :: s in m0 <==> s in pkgs
    requires forall s | s in m0 :: m0[s] == DefaultDetail()
    requires Appended(pkgs.Keys, FoundSet(c, pkgs), AllRecords(c, pkgs, ScopedRepos(c, data)), m0, m)
    ensures AnswersValues(c, data, m)
  {
    forall s | s in m
      ensures Elements(m[s].availableUpdates) == PackageRecords(c, FromStr(s).value, ScopedRepos(c, data))
    {
      AnswerAt(c, ScopedRepos(c, data), pkgs, s, DetailOf(m0, s), m[s]);
    }
  }

  /** `calc_updates`: the repositories in scope, the admitted packages, an empty entry
      for each, then their updates. The module list is read and ignored. */
  method CalcUpdates(c: Cache, data: Request) returns (res: Result<Response, Error>)
    requires WellFormed(c)
    ensures res.Err? <==> exists s | s in data.packageList && Admitted(c, s) :: LookupPackage(c, FromStr(s).value).Fail?
    ensures res.Err? ==> exists s | s in data.packageList && Admitted(c, s) ::
                           LookupPackage(c, FromStr(s).value) == Fail(res.error)
    ensures res.Ok? ==> Answers(c, data, res.value.updateList)
    ensures res.Ok? ==> && res.value.repositoryList == data.repositoryList
                        && res.value.releasever == data.releasever
                        && res.value.basearch == data.basearch
  {
    var response := new Response();
    var available := ProcessRepositories(c, data, response);
    var pkgs := ProcessInputPackages(c, data);
    assert AdmittedPackages(c, data, pkgs);
    var updateList := InsertDefaults(response.updateList, pkgs);
    response.updateList := updateList;
    var r := ProcessUpdates(c, pkgs, available, response);
    FailuresOfAdmitted(c, data, pkgs);
    if r.Err? {
      return Err(r.error);
    }
    AnswersFrom(c, data, pkgs, updateList, response.updateList);
    return Ok(response);
  }

  /** The loop of `calc_updates` that gives every admitted string a default entry. */
  method InsertDefaults(m: map<string, UpdatesPkgDetail>, pkgs: map<string, Nevra>) returns (r: map<string, UpdatesPkgDetail>)
    requires m == map[]
    ensures EmptyEntries(pkgs, r)
  {
    r := m;
    var todo := pkgs.Keys;
    while todo != {}
      invariant todo <= pkgs.Keys
      invariant forall s :: s in r <==> s in pkgs && s !in todo
      invariant forall s | s in r :: r[s] == DefaultDetail()
      decreases todo
    {
      var s :| s in todo;
      r := r[s := DefaultDetail()];
      todo := todo - {s};
    }
  }

  /** The failing packages of `process_updates` are the failing admitted strings. */
  lemma FailuresOfAdmitted(c: Cache, data: Request, pkgs: map<string, Nevra>)
    requires AdmittedPackages(c, data, pkgs)
    ensures forall err :: (exists s | s in pkgs :: LookupPackage(c, pkgs[s]) == Fail(err)) <==>
                          (exists s | s in data.packageList && Admitted(c, s) :: LookupPackage(c, FromStr(s).value) == Fail(err))
    ensures (exists s | s in pkgs :: LookupPackage(c, pkgs[s]).Fail?) <==>
            (exists s | s in data.packageList && Admitted(c, s) :: LookupPackage(c, FromStr(s).value).Fail?)
  {
  }

  // ---------------------------------------------------------------------------
  // What a reported update means

  /** Record `x` is pushed for an installed build at position `idx` of update list `ups`
      because of the build at position `k`, its advisory `e` and repository `r`: the
      build comes after the installed one, has the installed arch or a compatible one,
      carries the advisory, and sits in a scoped repository the advisory is published
      in, whose releasever and product are those of some repository of the installed
      build; the record names the build, the advisory and the repository. */
  ghost predicate EmitsAt(c: Cache, ups: seq<i64>, idx: nat, archId: i64, compat: seq<i64>,
                          available: set<i64>, k: nat, e: i64, r: i64, x: PkgUpdate)
    requires WellFormed(c) && idx < |ups|
  {
    && idx < k < |ups|
    && var u := ups[k];
    && var orig := PkgRepos(c, ups[idx]);
    && u in c.pkgDetails
    && (c.pkgDetails[u].archId == archId || c.pkgDetails[u].archId in compat)
    && u in c.pkgidToErrataids && e in c.pkgidToErrataids[u] && e in c.errataidToName
    && r in PkgRepos(c, u) && r in Util.Get(c.errataidToRepoids, e) && r in available && r in c.repoDetail
    && (exists o | o in orig && o in c.repoDetail :: c.repoDetail[o].releasever == c.repoDetail[r].releasever)
    && (exists o | o in orig && o in c.repoDetail :: c.repoDetail[o].productId == c.repoDetail[r].productId)
    && x == PkgUpdate(BuildNevra(c, u), c.errataidToName[e], Some(c.repoDetail[r].repoLabel),
                      c.repoDetail[r].basearch, c.repoDetail[r].releasever.GetOr(""))
  }

  /** Record `x` is reported for input package `n`: the lookups find it, it is not the
      newest build of its name, and `EmitsAt` gives the reason. */
  ghost predicate Emits(c: Cache, n: Nevra, available: set<i64>, k: nat, e: i64, r: i64, x: PkgUpdate)
    requires WellFormed(c)
  {
    var f := LookupPackage(c, n);
    && f.Found? && f.idx < |f.updates|
    && f.updates[|f.updates| - 1] != f.updates[f.idx]
    && EmitsAt(c, f.updates, f.idx, f.archId, f.compat, available, k, e, r, x)
  }

  lemma ErrataReposSingle(c: Cache, e: i64)
    ensures ErrataRepos(c, [e]) == Elements(Util.Get(c.errataidToRepoids, e))
  {
    assert [e][..0] == [];
  }

  /** Every record of the builds after an installed one has a reason `EmitsAt` describes. */
  /** Membership in what `get_repositories` gives for one advisory, spelled out. */
  lemma ReposForMembers(c: Cache, u: i64, e: i64, sc: Scope, r: i64)
    requires r in c.repoDetail
    ensures r in ReposFor(c, u, e, sc) <==>
              && r in PkgRepos(c, u) && r in Util.Get(c.errataidToRepoids, e) && r in sc.available
              && c.repoDetail[r].releasever in sc.releasevers && c.repoDetail[r].productId in sc.products
  {
    ErrataReposSingle(c, e);
  }

  /** A releasever or product belongs to a scope exactly when some repository of the
      installed build has it. */
  lemma ScopeOfMembers(c: Cache, current: i64, archId: i64, compat: seq<i64>, available: set<i64>, r: i64)
    requires WellFormed(c) && r in c.repoDetail
    ensures var sc := ScopeOf(c, current, archId, compat, available);
      && sc.archId == archId && sc.compat == compat && sc.available == available
      && (c.repoDetail[r].releasever in sc.releasevers <==>
            exists o | o in PkgRepos(c, current) && o in c.repoDetail :: c.repoDetail[o].releasever == c.repoDetail[r].releasever)
      && (c.repoDetail[r].productId in sc.products <==>
            exists o | o in PkgRepos(c, current) && o in c.repoDetail :: c.repoDetail[o].productId == c.repoDetail[r].productId)
  {
    PkgReposKnown(c, current);
  }

  lemma ScopedRecordFacts(c: Cache, ups: seq<i64>, idx: nat, archId: i64, compat: seq<i64>,
                          available: set<i64>, x: PkgUpdate) returns (k: nat, e: i64, r: i64)
    requires WellFormed(c) && idx < |ups|
    requires forall i | 0 <= i < |ups| :: ups[i] in c.pkgDetails
    requires x in OlderRecords(c, ups, idx, archId, compat, available)
    ensures EmitsAt(c, ups, idx, archId, compat, available, k, e, r, x)
  {
    var cands := ups[idx + 1..];
    var sc := ScopeOf(c, ups[idx], archId, compat, available);
    var j;
    j, e, r := CandidateRecordSource(c, cands, sc, x);
    k := idx + 1 + j;
    assert cands[j] == ups[k];
    ReposForMembers(c, ups[k], e, sc, r);
    ScopeOfMembers(c, ups[idx], archId, compat, available, r);
  }

  /** Every reason `EmitsAt` describes gives a record of the builds after the installed one. */
  lemma ScopedRecordFrom(c: Cache, ups: seq<i64>, idx: nat, archId: i64, compat: seq<i64>,
                         available: set<i64>, k: nat, e: i64, r: i64, x: PkgUpdate)
    requires WellFormed(c) && idx < |ups|
    requires forall i | 0 <= i < |ups| :: ups[i] in c.pkgDetails
    requires EmitsAt(c, ups, idx, archId, compat, available, k, e, r, x)
    ensures x in OlderRecords(c, ups, idx, archId, compat, available)
  {
    var cands := ups[idx + 1..];
    var sc := ScopeOf(c, ups[idx], archId, compat, available);
    var j := k - idx - 1;
    assert cands[j] == ups[k];
    ReposForMembers(c, ups[k], e, sc, r);
    ScopeOfMembers(c, ups[idx], archId, compat, available, r);
    CandidateRecordFrom(c, cands, sc, j, e, r);
  }

  /** Every reported update has a reason `Emits` describes. */
  lemma UpdateRecordFacts(c: Cache, n: Nevra, available: set<i64>, x: PkgUpdate) returns (k: nat, e: i64, r: i64)
    requires WellFormed(c) && x in PackageRecords(c, n, available)
    ensures Emits(c, n, available, k, e, r, x)
  {
    var f := LookupPackage(c, n);
    assert f.Found?;
    PackageRecordsFound(c, n, available);
    FoundInBounds(c, n);
    k, e, r := ScopedRecordFacts(c, f.updates, f.idx, f.archId, f.compat, available, x);
  }

  /** Every reason `Emits` describes gives a reported update. */
  lemma UpdateRecordFrom(c: Cache, n: Nevra, available: set<i64>, k: nat, e: i64, r: i64, x: PkgUpdate)
    requires WellFormed(c) && Emits(c, n, available, k, e, r, x)
    ensures x in PackageRecords(c, n, available)
  {
    var f := LookupPackage(c, n);
    FoundInBounds(c, n);
    PackageRecordsOfOlder(c, n, available);
    ScopedRecordFrom(c, f.updates, f.idx, f.archId, f.compat, available, k, e, r, x);
    InEqual(x, OlderRecords(c, f.updates, f.idx, f.archId, f.compat, available),
            PackageRecords(c, n, available));
  }

  /** The newest build of a name gets no updates. */
  lemma NewestHasNoUpdates(c: Cache, n: Nevra, available: set<i64>)
    requires WellFormed(c) && LookupPackage(c, n).Found?
    requires LookupPackage(c, n).idx + 1 == |LookupPackage(c, n).updates|
    ensures PackageRecords(c, n, available) == {}
  {
    PackageRecordsFound(c, n, available);
  }
}
