/** The first fetch of an address space, in the order of the sorted names, by a library that admits a node
    only once it knows its parent: exactly which nodes arrive, and that the others are missed for good. */
module FirstFetch {
  import opened Sequences
  import opened Table
  import opened TableLemmas
  import opened Protocol
  import opened Handlers
  import opened Versions
  import opened Convergence
  import opened ApplyOrder

  predicate Distinct(ps: seq<Path>) {
    forall i, j :: 0 <= i < j < |ps| ==> ps[i] != ps[j]
  }

  /** The nodes ps are applied one after the other. */
  function AppliedAll(local: map<Path, Data>, zk: Zk, ps: seq<Path>, admits: Admits): map<Path, Data>
    requires forall p :: p in ps ==> p in zk.store
    decreases |ps|
  {
    if ps == [] then local
    else
      assert ps[0] in ps;
      AppliedAll(Applied(local, ps[0], zk.store[ps[0]].data, admits), zk, ps[1..], admits)
  }

  // ---------- What is recorded ----------

  /** The current version of p is recorded, and no other. */
  ghost predicate Known(zk: Zk, t: State<Path, nat>, p: Path) {
    && p in zk.store
    && (exists c :: c in Cells(t) && c.k == p)
    && forall c :: c in Cells(t) && c.k == p ==> c.v == zk.store[p].mzxid
  }

  lemma KnownIsFresh(cfg: Config<Path>, live: set<Path>, zk: Zk, t: State<Path, nat>, p: Path)
    requires CollisionFree(cfg, live) && TableOk(cfg, live, zk, t) && p in live && Known(zk, t, p)
    ensures CheckAge(cfg, t, p, zk.store[p].mzxid) == 0
  {
    EntriesAreMatches(cfg, t, p);
    var c :| c in Cells(t) && c.k == p;
    CellsHashed(cfg, t, c);
    var found := FoundWasRecorded(cfg, live, zk, t, p);
  }

  lemma UnrecordedIsOld(cfg: Config<Path>, live: set<Path>, zk: Zk, t: State<Path, nat>, p: Path, mzxid: nat)
    requires CollisionFree(cfg, live) && TableOk(cfg, live, zk, t) && p in live
    requires forall c :: c in Cells(t) ==> c.k != p
    ensures CheckAge(cfg, t, p, mzxid) == -1
  {
    if Search(cfg, t, p).Some? {
      var c := FoundWasRecorded(cfg, live, zk, t, p);
    }
  }

  lemma CellsAfter(cfg: Config<Path>, live: set<Path>, zk: Zk, t: State<Path, nat>, p: Path, v: nat, tm: bool,
                   em: bool)
    requires TableOk(cfg, live, zk, t)
    ensures cfg.Sound() && t.primeindex < |cfg.primes| && |t.buckets| > 0
    ensures forall c :: c in Cells(Insert(cfg, t, p, v, tm, em)) <==>
                        c in Cells(t) || (em && c == Cell(cfg.hash(p), p, v))
  {
    hide Insert;
    InsertCorrect(cfg, t, p, v, tm, em);
  }

  lemma RecordKnows(cfg: Config<Path>, live: set<Path>, zk: Zk, t: State<Path, nat>, p: Path, tm: bool, em: bool)
    requires TableOk(cfg, live, zk, t) && p in zk.store
    ensures var t' := Insert(cfg, t, p, zk.store[p].mzxid, tm, em);
            && (em && (forall c :: c in Cells(t) ==> c.k != p) ==> Known(zk, t', p))
            && (forall q :: q != p && Known(zk, t, q) ==> Known(zk, t', q))
            && (forall c :: c in Cells(t') ==> c in Cells(t) || c.k == p)
  {
    hide Insert, TableOk, Cells;
    CellsAfter(cfg, live, zk, t, p, zk.store[p].mzxid, tm, em);
    var t' := Insert(cfg, t, p, zk.store[p].mzxid, tm, em);
    if em {
      assert Cell(cfg.hash(p), p, zk.store[p].mzxid) in Cells(t');
    }
    forall q | q != p && Known(zk, t, q)
      ensures Known(zk, t', q)
    {
      var c :| c in Cells(t) && c.k == q;
      assert c in Cells(t');
    }
  }

  lemma FirstOne(cfg: Config<Path>, live: set<Path>, zk: Zk, srv: Server, p: Path, luck: Luck)
    requires CollisionFree(cfg, live) && StoreOk(zk) && ServerOk(cfg, live, zk, srv) && srv.pc.Idle? && luck.em
    requires p in live && p in zk.store && forall c :: c in Cells(srv.table) ==> c.k != p
    ensures var (zk', srv') := Fetching(cfg, zk, srv, p, luck);
            && zk' == zk && srv'.pc.Idle? && ServerOk(cfg, live, zk, srv')
            && srv'.local == Applied(srv.local, p, zk.store[p].data, luck.admits)
            && Known(zk, srv'.table, p) && (forall q :: Known(zk, srv.table, q) ==> Known(zk, srv'.table, q))
            && (forall c :: c in Cells(srv'.table) ==> c in Cells(srv.table) || c.k == p)
  {
    hide Fetching, StoreOk, TableOk, CheckAge, Insert, Cells, Applied, CollisionFree;
    UnrecordedIsOld(cfg, live, zk, srv.table, p, zk.store[p].mzxid);
    FetchApplies(cfg, live, zk, srv, p, luck);
    RecordKnows(cfg, live, zk, srv.table, p, luck.tm, true);
  }

  /** A server that has recorded none of the nodes ps applies each of them, and records their versions. */
  lemma {:induction false} FirstFetchApplies(cfg: Config<Path>, live: set<Path>, zk: Zk, srv: Server, ps: seq<Path>,
                                             luck: Luck)
    requires CollisionFree(cfg, live) && StoreOk(zk) && ServerOk(cfg, live, zk, srv) && srv.pc.Idle? && luck.em
    requires Distinct(ps) && (forall p :: p in ps ==> p in live && p in zk.store)
    requires forall c :: c in Cells(srv.table) ==> c.k !in ps
    ensures var (zk', srv') := FetchEach(cfg, zk, srv, ps, luck);
            && zk' == zk && srv'.pc.Idle? && ServerOk(cfg, live, zk, srv')
            && srv'.local == AppliedAll(srv.local, zk, ps, luck.admits)
            && (forall p :: p in ps || Known(zk, srv.table, p) ==> Known(zk, srv'.table, p))
    decreases |ps|
  {
    if ps != [] {
      hide Fetching, StoreOk, ServerOk, Known, Cells, Applied, CollisionFree;
      assert ps[0] in ps && forall q :: q in ps <==> q == ps[0] || q in ps[1..];
      FirstOne(cfg, live, zk, srv, ps[0], luck);
      FirstFetchApplies(cfg, live, zk, Fetching(cfg, zk, srv, ps[0], luck).1, ps[1..], luck);
    }
  }

  // ---------- Parents ----------

  /** The library admits a node if it needs no parent, or its parent is there. */
  function Knows(parent: Data -> Option<Path>): Admits {
    (local: map<Path, Data>, _: Path, d: Data) =>
      match parent(d)
      case None => true
      case Some(q) => q in local
  }

  /** The i-th node is applied after its parent, and the parent after its own, up to a node that needs no
      parent or whose parent is local from the beginning. */
  predicate InTime(local: map<Path, Data>, zk: Zk, ps: seq<Path>, parent: Data -> Option<Path>, i: nat)
    requires i < |ps| && forall p :: p in ps ==> p in zk.store
    decreases i
  {
    assert ps[i] in ps;
    match parent(zk.store[ps[i]].data)
    case None => true
    case Some(q) => q in local || exists j :: 0 <= j < i && ps[j] == q && InTime(local, zk, ps, parent, j)
  }

  lemma {:induction false} AppliedSnoc(local: map<Path, Data>, zk: Zk, ps: seq<Path>, p: Path, admits: Admits)
    requires (forall q :: q in ps ==> q in zk.store) && p in zk.store
    ensures AppliedAll(local, zk, ps + [p], admits) ==
            Applied(AppliedAll(local, zk, ps, admits), p, zk.store[p].data, admits)
    decreases |ps|
  {
    if ps == [] {
      assert [p][1..] == [];
    } else {
      assert ps[0] in ps && (ps + [p])[1..] == ps[1..] + [p];
      AppliedSnoc(Applied(local, ps[0], zk.store[ps[0]].data, admits), zk, ps[1..], p, admits);
    }
  }

  /** After the first k nodes, exactly those of them are held that were in time. */
  ghost predicate HeldTo(local: map<Path, Data>, zk: Zk, ps: seq<Path>, parent: Data -> Option<Path>, k: nat,
                         held: map<Path, Data>)
    requires k <= |ps| && forall p :: p in ps ==> p in zk.store
  {
    && (forall p :: p !in ps[..k] ==> (p in held <==> p in local) && (p in local ==> held[p] == local[p]))
    && forall i :: 0 <= i < k ==>
         && ps[i] in ps && (ps[i] in held <==> InTime(local, zk, ps, parent, i))
         && (ps[i] in held ==> held[ps[i]] == zk.store[ps[i]].data)
  }

  lemma {:induction false} HeldIffInTime(local: map<Path, Data>, zk: Zk, ps: seq<Path>, parent: Data -> Option<Path>,
                                         k: nat)
    requires Distinct(ps) && k <= |ps| && forall p :: p in ps ==> p in zk.store && p !in local
    ensures HeldTo(local, zk, ps, parent, k, AppliedAll(local, zk, ps[..k], Knows(parent)))
  {
    if k > 0 {
      hide Applied, Knows, HeldTo;
      HeldIffInTime(local, zk, ps, parent, k - 1);
      assert ps[..k] == ps[..k - 1] + [ps[k - 1]] && ps[k - 1] in ps;
      AppliedSnoc(local, zk, ps[..k - 1], ps[k - 1], Knows(parent));
      HeldStep(local, zk, ps, parent, k - 1, AppliedAll(local, zk, ps[..k - 1], Knows(parent)));
    }
  }

  lemma HeldStep(local: map<Path, Data>, zk: Zk, ps: seq<Path>, parent: Data -> Option<Path>, k: nat,
                 held: map<Path, Data>)
    requires Distinct(ps) && k < |ps| && forall p :: p in ps ==> p in zk.store && p !in local
    requires HeldTo(local, zk, ps, parent, k, held)
    ensures ps[k] in ps
    ensures HeldTo(local, zk, ps, parent, k + 1, Applied(held, ps[k], zk.store[ps[k]].data, Knows(parent)))
  {
    hide Applied, Knows, InTime;
    assert ps[k] in ps && ps[k] !in ps[..k] && ps[..k + 1] == ps[..k] + [ps[k]];
    AppliedNew(held, ps[k], zk.store[ps[k]].data, Knows(parent));
    AdmittedIffInTime(local, zk, ps, parent, k, held);
  }

  lemma AppliedNew(local: map<Path, Data>, p: Path, d: Data, admits: Admits)
    requires p !in local
    ensures Applied(local, p, d, admits) == if admits(local, p, d) then local[p := d] else local
  {
  }

  lemma AdmittedIffInTime(local: map<Path, Data>, zk: Zk, ps: seq<Path>, parent: Data -> Option<Path>, k: nat,
                          held: map<Path, Data>)
    requires k < |ps| && forall p :: p in ps ==> p in zk.store && p !in local
    requires forall p :: p !in ps[..k] ==> (p in held <==> p in local)
    requires forall i :: 0 <= i < k ==> (ps[i] in held <==> InTime(local, zk, ps, parent, i))
    ensures ps[k] in ps && (Knows(parent)(held, ps[k], zk.store[ps[k]].data) <==> InTime(local, zk, ps, parent, k))
  {
    assert ps[k] in ps;
    var q := parent(zk.store[ps[k]].data);
    if q.Some? && q.value in ps[..k] {
      var j :| 0 <= j < k && ps[..k][j] == q.value;
      assert ps[j] == q.value && ps[j] in ps;
    }
  }

  // ---------- In the sorted order ----------

  function PathsOf(prefix: Path, ns: seq<Graphs.NodeId>): (ps: seq<Path>)
    ensures |ps| == |ns| && forall i :: 0 <= i < |ns| ==> ps[i] == Paths.Path(prefix, ns[i])
  {
    Under(prefix, ApplyOrder.Names(ns))
  }

  lemma PathsDistinct(prefix: Path, ns: seq<Graphs.NodeId>)
    requires Children(ns)
    ensures Distinct(PathsOf(prefix, ns))
  {
    hide Paths.Path;
    forall i, j | 0 <= i < j < |ns|
      ensures PathsOf(prefix, ns)[i] != PathsOf(prefix, ns)[j]
    {
      Paths.PathsDiffer(prefix, ns[i], ns[j]);
    }
  }

  /** From chain[0] on, each node's parent is the next, and comes before it in the order of the names; the
      last needs no parent, or its parent is local. */
  ghost predicate Ascends(prefix: Path, local: map<Path, Data>, zk: Zk, parent: Data -> Option<Path>,
                          ns: seq<Graphs.NodeId>, chain: seq<Graphs.NodeId>)
    requires forall n :: n in ns ==> Paths.Path(prefix, n) in zk.store
  {
    && chain != [] && (forall n :: n in chain ==> n in ns)
    && (forall k :: 0 <= k < |chain| - 1 ==>
          ParentIs(prefix, zk, parent, chain[k], chain[k + 1]) && Before(chain[k + 1], chain[k]))
    && NeedsNone(prefix, local, zk, parent, chain[|chain| - 1])
  }

  predicate ParentIs(prefix: Path, zk: Zk, parent: Data -> Option<Path>, n: Graphs.NodeId, m: Graphs.NodeId) {
    Paths.Path(prefix, n) in zk.store && parent(zk.store[Paths.Path(prefix, n)].data) == Some(Paths.Path(prefix, m))
  }

  predicate NeedsNone(prefix: Path, local: map<Path, Data>, zk: Zk, parent: Data -> Option<Path>, n: Graphs.NodeId) {
    && Paths.Path(prefix, n) in zk.store
    && match parent(zk.store[Paths.Path(prefix, n)].data)
       case None => true
       case Some(q) => q in local
  }

  /** The ancestors of n, up to one that needs no parent here, come before their children in the order. */
  ghost predicate AncestorsFirst(prefix: Path, local: map<Path, Data>, zk: Zk, parent: Data -> Option<Path>,
                                 ns: seq<Graphs.NodeId>, n: Graphs.NodeId)
    requires forall n :: n in ns ==> Paths.Path(prefix, n) in zk.store
  {
    exists chain :: Ascends(prefix, local, zk, parent, ns, chain) && chain != [] && chain[0] == n
  }

  lemma PathsStored(prefix: Path, zk: Zk, ns: seq<Graphs.NodeId>)
    requires forall n :: n in ns ==> Paths.Path(prefix, n) in zk.store
    ensures forall p :: p in PathsOf(prefix, ns) ==> p in zk.store
    ensures forall i :: 0 <= i < |ns| ==> PathsOf(prefix, ns)[i] == Paths.Path(prefix, ns[i]) && ns[i] in ns
  {
  }

  lemma {:induction false} InTimeAscends(prefix: Path, local: map<Path, Data>, zk: Zk, parent: Data -> Option<Path>,
                                         ns: seq<Graphs.NodeId>, i: nat)
    requires Children(ns) && Sorted(ApplyOrder.Names(ns)) && i < |ns|
    requires forall n :: n in ns ==> Paths.Path(prefix, n) in zk.store
    requires forall p :: p in PathsOf(prefix, ns) ==> p in zk.store
    requires InTime(local, zk, PathsOf(prefix, ns), parent, i)
    ensures AncestorsFirst(prefix, local, zk, parent, ns, ns[i])
    decreases i
  {
    hide Paths.Path, Sorted, PathsOf, Before;
    PathsStored(prefix, zk, ns);
    var ps, n := PathsOf(prefix, ns), ns[i];
    var q := parent(zk.store[ps[i]].data);
    if q.None? || q.value in local {
      assert Ascends(prefix, local, zk, parent, ns, [n]);
    } else {
      var j :| 0 <= j < i && ps[j] == q.value && InTime(local, zk, ps, parent, j);
      InTimeAscends(prefix, local, zk, parent, ns, j);
      var chain :| Ascends(prefix, local, zk, parent, ns, chain) && chain != [] && chain[0] == ns[j];
      ParentsFirst(ns, j, i);
      AscendsCons(prefix, local, zk, parent, ns, n, chain);
    }
  }

  lemma AscendsCons(prefix: Path, local: map<Path, Data>, zk: Zk, parent: Data -> Option<Path>,
                    ns: seq<Graphs.NodeId>, n: Graphs.NodeId, chain: seq<Graphs.NodeId>)
    requires forall n :: n in ns ==> Paths.Path(prefix, n) in zk.store
    requires Ascends(prefix, local, zk, parent, ns, chain) && n in ns
    requires ParentIs(prefix, zk, parent, n, chain[0]) && Before(chain[0], n)
    ensures Ascends(prefix, local, zk, parent, ns, [n] + chain)
  {
    hide ParentIs, NeedsNone, Before;
  }

  lemma {:induction false} AscendsInTime(prefix: Path, local: map<Path, Data>, zk: Zk, parent: Data -> Option<Path>,
                                         ns: seq<Graphs.NodeId>, chain: seq<Graphs.NodeId>, i: nat)
    requires Children(ns) && Sorted(ApplyOrder.Names(ns)) && i < |ns|
    requires forall n :: n in ns ==> Paths.Path(prefix, n) in zk.store
    requires (forall p :: p in PathsOf(prefix, ns) ==> p in zk.store)
    requires Ascends(prefix, local, zk, parent, ns, chain) && chain != [] && chain[0] == ns[i]
    ensures InTime(local, zk, PathsOf(prefix, ns), parent, i)
    decreases |chain|
  {
    hide Paths.Path, Sorted;
    PathsStored(prefix, zk, ns);
    if |chain| > 1 {
      assert chain[1] in chain && ParentIs(prefix, zk, parent, chain[0], chain[0 + 1]);
      var j :| 0 <= j < |ns| && ns[j] == chain[1];
      ParentsFirst(ns, j, i);
      AscendsTail(prefix, local, zk, parent, ns, chain);
      AscendsInTime(prefix, local, zk, parent, ns, chain[1..], j);
    }
  }

  lemma AscendsTail(prefix: Path, local: map<Path, Data>, zk: Zk, parent: Data -> Option<Path>,
                    ns: seq<Graphs.NodeId>, chain: seq<Graphs.NodeId>)
    requires forall n :: n in ns ==> Paths.Path(prefix, n) in zk.store
    requires Ascends(prefix, local, zk, parent, ns, chain) && |chain| > 1
    ensures Ascends(prefix, local, zk, parent, ns, chain[1..])
  {
    hide ParentIs, NeedsNone, Before;
    forall k | 0 <= k < |chain[1..]| - 1
      ensures ParentIs(prefix, zk, parent, chain[1..][k], chain[1..][k + 1]) && Before(chain[1..][k + 1], chain[1..][k])
    {
      assert ParentIs(prefix, zk, parent, chain[k + 1], chain[k + 1 + 1]);
    }
  }

  /** The children, listed in the order of their names. */
  lemma ArriveInOrder(cfg: Config<Path>, live: set<Path>, zk: Zk, srv: Server, prefix: Path, ns: seq<Graphs.NodeId>,
                      parent: Data -> Option<Path>, tm: bool, garbage: nat)
    requires CollisionFree(cfg, live) && StoreOk(zk) && ServerOk(cfg, live, zk, srv) && srv.pc.Idle?
    requires Children(ns) && Sorted(ApplyOrder.Names(ns))
    requires forall n :: n in ns ==> var p := Paths.Path(prefix, n); p in zk.store && p in live && p !in srv.local
    requires forall c :: c in Cells(srv.table) ==> c.k !in PathsOf(prefix, ns)
    ensures var (zk', srv') :=
              FetchEach(cfg, zk, srv, PathsOf(prefix, ns), Luck(tm, true, garbage, Knows(parent)));
            && zk' == zk && srv'.pc.Idle? && Runnable(cfg, srv')
            && forall n :: n in ns ==>
                 var p := Paths.Path(prefix, n);
                 && CheckAge(cfg, srv'.table, p, zk.store[p].mzxid) == 0
                 && (p in srv'.local <==> AncestorsFirst(prefix, srv.local, zk, parent, ns, n))
                 && (p in srv'.local ==> srv'.local[p] == zk.store[p].data)
  {
    hide Paths.Path, Sorted, CheckAge, AncestorsFirst, InTime, Known, StoreOk, TableOk, CollisionFree, FetchEach;
    var ps, luck := PathsOf(prefix, ns), Luck(tm, true, garbage, Knows(parent));
    PathsStored(prefix, zk, ns);
    PathsDistinct(prefix, ns);
    FirstFetchApplies(cfg, live, zk, srv, ps, luck);
    var srv' := FetchEach(cfg, zk, srv, ps, luck).1;
    OkIsRunnable(cfg, live, zk, srv');
    HeldIffInTime(srv.local, zk, ps, parent, |ps|);
    assert ps[..|ps|] == ps;
    forall n | n in ns
      ensures CheckAge(cfg, srv'.table, Paths.Path(prefix, n), zk.store[Paths.Path(prefix, n)].mzxid) == 0
      ensures Paths.Path(prefix, n) in srv'.local <==> AncestorsFirst(prefix, srv.local, zk, parent, ns, n)
      ensures Paths.Path(prefix, n) in srv'.local ==>
                srv'.local[Paths.Path(prefix, n)] == zk.store[Paths.Path(prefix, n)].data
    {
      var i :| 0 <= i < |ns| && ns[i] == n;
      assert ps[i] in ps;
      KnownIsFresh(cfg, live, zk, srv'.table, ps[i]);
      InTimeIffAscends(prefix, srv.local, zk, parent, ns, i);
    }
  }

  lemma InTimeIffAscends(prefix: Path, local: map<Path, Data>, zk: Zk, parent: Data -> Option<Path>,
                         ns: seq<Graphs.NodeId>, i: nat)
    requires Children(ns) && Sorted(ApplyOrder.Names(ns)) && i < |ns|
    requires forall n :: n in ns ==> Paths.Path(prefix, n) in zk.store
    requires forall p :: p in PathsOf(prefix, ns) ==> p in zk.store
    ensures InTime(local, zk, PathsOf(prefix, ns), parent, i) <==> AncestorsFirst(prefix, local, zk, parent, ns, ns[i])
  {
    hide Ascends, InTime, Sorted, Paths.Path;
    if InTime(local, zk, PathsOf(prefix, ns), parent, i) {
      InTimeAscends(prefix, local, zk, parent, ns, i);
    }
    if AncestorsFirst(prefix, local, zk, parent, ns, ns[i]) {
      var chain :| Ascends(prefix, local, zk, parent, ns, chain) && chain != [] && chain[0] == ns[i];
      AscendsInTime(prefix, local, zk, parent, ns, chain, i);
    }
  }

  /** A server that knows nothing of the children ns of an address space fetches them, undisturbed, in the
      order that sorting their names gives, and the library admits a node once it knows its parent: exactly
      those arrive whose ancestors all come before their children in the order of namespace index and signed
      identifier. The others are recorded all the same, and skipped by every fetch until they change. */
  lemma ArrivesIffAncestorsFirst(cfg: Config<Path>, live: set<Path>, zk: Zk, srv: Server, prefix: Path,
                                 ns: seq<Graphs.NodeId>, names: seq<string>, parent: Data -> Option<Path>, tm: bool,
                                 garbage: nat)
    requires CollisionFree(cfg, live) && StoreOk(zk) && ServerOk(cfg, live, zk, srv) && srv.pc.Idle?
    requires Children(ns) && Sorted(names) && multiset(names) == multiset(ApplyOrder.Names(ns))
    requires forall n :: n in ns ==> var p := Paths.Path(prefix, n); p in zk.store && p in live && p !in srv.local
    requires forall c :: c in Cells(srv.table) ==> c.k !in PathsOf(prefix, ns)
    ensures var (zk', srv') :=
              FetchEach(cfg, zk, srv, Under(prefix, names), Luck(tm, true, garbage, Knows(parent)));
            && zk' == zk && srv'.pc.Idle? && Runnable(cfg, srv')
            && forall n :: n in ns ==>
                 var p := Paths.Path(prefix, n);
                 && CheckAge(cfg, srv'.table, p, zk.store[p].mzxid) == 0
                 && (p in srv'.local <==> AncestorsFirst(prefix, srv.local, zk, parent, ns, n))
                 && (p in srv'.local ==> srv'.local[p] == zk.store[p].data)
  {
    hide Paths.Path, Sorted, CheckAge, StoreOk, ServerOk, CollisionFree, FetchEach, AncestorsFirst, Children;
    var ns' := NamesRearranged(ns, names);
    SamePaths(prefix, ns, ns');
    ArriveInOrder(cfg, live, zk, srv, prefix, ns', parent, tm, garbage);
    SameAncestors(prefix, srv.local, zk, parent, ns, ns');
  }

  lemma SamePaths(prefix: Path, ns: seq<Graphs.NodeId>, ns': seq<Graphs.NodeId>)
    requires forall n :: n in ns' <==> n in ns
    ensures forall p :: p in PathsOf(prefix, ns') ==> p in PathsOf(prefix, ns)
  {
    hide Paths.Path;
    forall p | p in PathsOf(prefix, ns')
      ensures p in PathsOf(prefix, ns)
    {
      var i :| 0 <= i < |ns'| && PathsOf(prefix, ns')[i] == p;
      assert ns'[i] in ns';
      var j :| 0 <= j < |ns| && ns[j] == ns'[i];
      assert PathsOf(prefix, ns)[j] == p;
    }
  }

  lemma SameAncestors(prefix: Path, local: map<Path, Data>, zk: Zk, parent: Data -> Option<Path>,
                      ns: seq<Graphs.NodeId>, ns': seq<Graphs.NodeId>)
    requires forall n :: n in ns' <==> n in ns
    requires forall n :: n in ns ==> Paths.Path(prefix, n) in zk.store
    ensures forall n :: AncestorsFirst(prefix, local, zk, parent, ns', n) <==>
                        AncestorsFirst(prefix, local, zk, parent, ns, n)
  {
    hide Paths.Path, ParentIs, NeedsNone, Before;
    assert forall chain :: Ascends(prefix, local, zk, parent, ns', chain) <==>
                           Ascends(prefix, local, zk, parent, ns, chain);
  }

  /** A child whose identifier has crossed 2^31, while its parent's has not, is missed. */
  lemma CrossingChildIsLate(prefix: Path, local: map<Path, Data>, zk: Zk, parent: Data -> Option<Path>,
                            ns: seq<Graphs.NodeId>, m: Graphs.NodeId, n: Graphs.NodeId)
    requires Children(ns) && (forall n :: n in ns ==> Paths.Path(prefix, n) in zk.store)
    requires m in ns && n in ns && m.ns == n.ns && m.id < Widths.TWO31 <= n.id
    requires ParentIs(prefix, zk, parent, n, m) && Paths.Path(prefix, m) !in local
    ensures !AncestorsFirst(prefix, local, zk, parent, ns, n)
  {
    hide Paths.Path;
    if AncestorsFirst(prefix, local, zk, parent, ns, n) {
      var chain :| Ascends(prefix, local, zk, parent, ns, chain) && chain != [] && chain[0] == n;
      assert ParentIs(prefix, zk, parent, chain[0], chain[0 + 1]) && chain[1] in chain;
      Paths.PathsDiffer(prefix, m, chain[1]);
      AscendingIffSameSign(m, n);
    }
  }
}
