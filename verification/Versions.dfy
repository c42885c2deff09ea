/** Versions never run ahead: what a server has recorded for a path is a version the store gave to
    that path, and none is newer than the store's current one. */
module Versions {
  import opened Sequences
  import opened Table
  import opened TableLemmas
  import opened Protocol

  /** Each znode holds the data and the number of the last change made to its path. */
  ghost predicate StoreOk(zk: Zk) {
    forall p :: p in zk.store ==>
      && Logged(zk, p, zk.store[p].mzxid)
      && zk.log[zk.store[p].mzxid - 1].data == zk.store[p].data
      && forall i :: zk.store[p].mzxid <= i < |zk.log| ==> zk.log[i].path != p
  }

  /** The entries of a table, as a bag. */
  ghost function Cells(t: State<Path, nat>): multiset<Cell<Path, nat>> {
    multiset(Flat(t.buckets))
  }

  ghost predicate TableOk(cfg: Config<Path>, live: set<Path>, zk: Zk, t: State<Path, nat>) {
    && Valid(cfg, t)
    && forall c :: c in Cells(t) ==> c.k in live && Logged(zk, c.k, c.v)
  }

  ghost predicate PcOk(live: set<Path>, zk: Zk, pc: Pc) {
    match pc
    case Idle => true
    case Pushing(todo) => forall p :: p in todo ==> p in live
    case Push(p, _, stage, _, resume) =>
      p in live && (stage.Set? ==> Logged(zk, p, stage.seen)) && forall q :: q in Rest(resume) ==> q in live
    case Added(p, _, _, resume) =>
      p in live && !resume.Writes?
    case Replacing(p, _, _) => p in live
  }

  ghost predicate ServerOk(cfg: Config<Path>, live: set<Path>, zk: Zk, srv: Server) {
    && TableOk(cfg, live, zk, srv.table)
    && PcOk(live, zk, srv.pc)
    && forall p :: p in srv.local ==> p in live
  }

  ghost predicate SystemOk(cfg: Config<Path>, live: set<Path>, sys: System) {
    && StoreOk(sys.zk)
    && forall s :: 0 <= s < |sys.servers| ==> ServerOk(cfg, live, sys.zk, sys.servers[s])
  }

  lemma OkIsRunnable(cfg: Config<Path>, live: set<Path>, zk: Zk, srv: Server)
    requires ServerOk(cfg, live, zk, srv)
    ensures Runnable(cfg, srv)
  {
  }

  // ---------- What a search can find ----------

  /** The value found for a live path is one that was recorded for that very path. */
  lemma FoundWasRecorded(cfg: Config<Path>, live: set<Path>, zk: Zk, t: State<Path, nat>, p: Path)
    returns (c: Cell<Path, nat>)
    requires CollisionFree(cfg, live) && TableOk(cfg, live, zk, t) && p in live
    requires Search(cfg, t, p).Some?
    ensures c in Cells(t) && c.k == p && Search(cfg, t, p) == Some(c.v)
  {
    EntriesAreMatches(cfg, t, p);
    c := Entries(cfg, t, p)[0];
    assert c in Flat(t.buckets);
    CellsHashed(cfg, t, c);
  }

  lemma CellsHashed(cfg: Config<Path>, t: State<Path, nat>, c: Cell<Path, nat>)
    requires Valid(cfg, t) && c in Flat(t.buckets)
    ensures c.h == cfg.hash(c.k)
  {
    FlatHashed(cfg, t.buckets);
    var i :| 0 <= i < |Flat(t.buckets)| && Flat(t.buckets)[i] == c;
  }

  /** A version recorded for a path is at most the path's current version. */
  lemma LoggedAtMostCurrent(zk: Zk, p: Path, v: nat)
    requires StoreOk(zk) && Logged(zk, p, v) && p in zk.store
    ensures v <= zk.store[p].mzxid
  {
  }

  lemma NeverAhead(cfg: Config<Path>, live: set<Path>, zk: Zk, t: State<Path, nat>, p: Path)
    requires CollisionFree(cfg, live) && StoreOk(zk) && TableOk(cfg, live, zk, t)
    requires p in live && p in zk.store
    ensures CheckAge(cfg, t, p, zk.store[p].mzxid) <= 0
  {
    if Search(cfg, t, p).Some? {
      var c := FoundWasRecorded(cfg, live, zk, t, p);
      LoggedAtMostCurrent(zk, p, c.v);
    }
  }

  // ---------- Every step keeps it ----------

  /** What one step may do to the store. */
  ghost predicate Evolves(zk: Zk, zk': Zk) {
    zk' == zk || (exists p, d, cause :: zk' == zk.Write(p, d, cause)) || (exists p :: zk' == zk.Delete(p))
  }

  lemma StoreStays(zk: Zk, zk': Zk)
    requires Evolves(zk, zk') && StoreOk(zk)
    ensures StoreOk(zk')
  {
    forall p | p in zk'.store
      ensures Logged(zk', p, zk'.store[p].mzxid)
      ensures zk'.log[zk'.store[p].mzxid - 1].data == zk'.store[p].data
      ensures forall i :: zk'.store[p].mzxid <= i < |zk'.log| ==> zk'.log[i].path != p
    {
      if zk' != zk && zk'.log[|zk.log|].path == p {
        assert zk'.store[p].mzxid == |zk.log| + 1;
      } else {
        assert zk'.store[p] == zk.store[p];
      }
    }
  }

  lemma OthersStay(cfg: Config<Path>, live: set<Path>, zk: Zk, zk': Zk, srv: Server)
    requires Evolves(zk, zk') && ServerOk(cfg, live, zk, srv)
    ensures ServerOk(cfg, live, zk', srv)
  {
  }

  lemma StepEvolves(cfg: Config<Path>, zk: Zk, srv: Server, a: Action)
    requires Runnable(cfg, srv) && Enabled(srv, a)
    ensures Evolves(zk, Step(cfg, zk, srv, a).0)
  {
  }

  lemma RecordOk(cfg: Config<Path>, live: set<Path>, zk: Zk, t: State<Path, nat>, p: Path, v: nat, tm: bool, em: bool)
    requires TableOk(cfg, live, zk, t) && (em ==> p in live && Logged(zk, p, v))
    ensures TableOk(cfg, live, zk, Insert(cfg, t, p, v, tm, em))
  {
    InsertCorrect(cfg, t, p, v, tm, em);
  }

  lemma WrittenLive(live: set<Path>, local: map<Path, Data>, writes: seq<(Path, Data)>)
    requires forall p :: p in local ==> p in live
    ensures forall p :: p in Written(local, writes) ==> p in live
  {
  }

  lemma StepOk(cfg: Config<Path>, live: set<Path>, zk: Zk, srv: Server, a: Action)
    requires StoreOk(zk) && ServerOk(cfg, live, zk, srv)
    requires Runnable(cfg, srv) && Enabled(srv, a)
    requires forall p :: p in Names(a) ==> p in live
    requires a.PushGet? && a.em ==> srv.pc.p in zk.store || Logged(zk, srv.pc.p, a.garbage)
    ensures ServerOk(cfg, live, Step(cfg, zk, srv, a).0, Step(cfg, zk, srv, a).1)
  {
    hide TableOk, Logged, Evolves, Insert, CheckAge, Search;
    var zk' := Step(cfg, zk, srv, a).0;
    StepEvolves(cfg, zk, srv, a);
    OthersStay(cfg, live, zk, zk', srv);
    if a.PushSet? || a.PushGet? || a.Fetch? {
      RecordingStepOk(cfg, live, zk, srv, a);
    } else if a.ClientWrite? {
      WrittenLive(live, srv.local, a.writes);
    } else if a.ClientAdd? {
      assert a.p in Names(a);
    }
  }

  /** The version that a step records is in the history of its path. */
  lemma RecordedIsLogged(cfg: Config<Path>, live: set<Path>, zk: Zk, srv: Server, a: Action, p: Path, v: nat)
    requires StoreOk(zk) && PcOk(live, zk, srv.pc) && Runnable(cfg, srv) && Enabled(srv, a)
    requires match a
             case PushSet(_, _) => p == srv.pc.p && v == if p in zk.store then |zk.log| + 1 else srv.pc.stage.seen
             case PushGet(garbage, _, _) =>
               p == srv.pc.p && (if p in zk.store then v == zk.store[p].mzxid else v == garbage && Logged(zk, p, v))
             case Fetch(q, _, _, _) => p == q && p in zk.store && v == zk.store[p].mzxid
             case _ => false
    ensures Logged(Step(cfg, zk, srv, a).0, p, v)
  {
    hide Insert, CheckAge;
  }

  /** The steps that record a version. */
  lemma RecordingStepOk(cfg: Config<Path>, live: set<Path>, zk: Zk, srv: Server, a: Action)
    requires StoreOk(zk) && ServerOk(cfg, live, zk, srv)
    requires Runnable(cfg, srv) && Enabled(srv, a)
    requires forall p :: p in Names(a) ==> p in live
    requires a.PushSet? || a.PushGet? || a.Fetch?
    requires a.PushGet? && a.em ==> srv.pc.p in zk.store || Logged(zk, srv.pc.p, a.garbage)
    ensures ServerOk(cfg, live, Step(cfg, zk, srv, a).0, Step(cfg, zk, srv, a).1)
  {
    hide TableOk, StoreOk, Logged, Evolves, Insert, CheckAge, Search;
    var zk' := Step(cfg, zk, srv, a).0;
    StepEvolves(cfg, zk, srv, a);
    OthersStay(cfg, live, zk, zk', srv);
    match a
    case PushSet(tm, em) =>
      var v := if srv.pc.p in zk.store then |zk.log| + 1 else srv.pc.stage.seen;
      RecordedIsLogged(cfg, live, zk, srv, a, srv.pc.p, v);
      RecordOk(cfg, live, zk', srv.table, srv.pc.p, v, tm, em);
    case PushGet(garbage, tm, em) =>
      var v := if srv.pc.p in zk.store then zk.store[srv.pc.p].mzxid else garbage;
      if em {
        RecordedIsLogged(cfg, live, zk, srv, a, srv.pc.p, v);
      }
      RecordOk(cfg, live, zk', srv.table, srv.pc.p, v, tm, em);
    case Fetch(p, tm, em, _) =>
      assert p in Names(a);
      if p in zk.store {
        RecordedIsLogged(cfg, live, zk, srv, a, p, zk.store[p].mzxid);
        RecordOk(cfg, live, zk', srv.table, p, zk.store[p].mzxid, tm, em);
      }
  }

  lemma NextOk(cfg: Config<Path>, live: set<Path>, sys: System, e: Event)
    requires SystemOk(cfg, live, sys) && Possible(cfg, live, sys, e) && ReadsLogged(sys, e)
    ensures SystemOk(cfg, live, Protocol.Next(cfg, live, sys, e))
  {
    var zk' := Step(cfg, sys.zk, sys.servers[e.s], e.a).0;
    StepEvolves(cfg, sys.zk, sys.servers[e.s], e.a);
    StoreStays(sys.zk, zk');
    StepOk(cfg, live, sys.zk, sys.servers[e.s], e.a);
    forall s | 0 <= s < |sys.servers| && s != e.s
      ensures ServerOk(cfg, live, zk', sys.servers[s])
    {
      OthersStay(cfg, live, sys.zk, zk', sys.servers[s]);
    }
  }

  lemma InitialOk(cfg: Config<Path>, live: set<Path>, n: nat, pindex: nat)
    requires cfg.Sound() && pindex < |cfg.primes|
    ensures SystemOk(cfg, live, Initial(cfg, n, pindex))
  {
    CreateCorrect<Path, nat>(cfg, pindex);
  }

  lemma {:induction false} RunOk(cfg: Config<Path>, live: set<Path>, sys: System, es: seq<Event>, sys': System)
    requires SystemOk(cfg, live, sys) && Run(cfg, live, ReadsLogged, sys, es, sys')
    ensures SystemOk(cfg, live, sys')
    decreases |es|
  {
    if es != [] {
      NextOk(cfg, live, sys, es[0]);
      RunOk(cfg, live, Protocol.Next(cfg, live, sys, es[0]), es[1..], sys');
    }
  }

  // ---------- Exactly when ----------

  /** Every recorded version is one that the store has given to its path. */
  ghost predicate AllLogged(sys: System) {
    forall s, c :: 0 <= s < |sys.servers| && c in Cells(sys.servers[s].table) ==> Logged(sys.zk, c.k, c.v)
  }

  ghost predicate LoggedThroughout(cfg: Config<Path>, live: set<Path>, sys: System, es: seq<Event>)
    decreases |es|
  {
    && AllLogged(sys)
    && (es != [] && Possible(cfg, live, sys, es[0]) ==>
          LoggedThroughout(cfg, live, Protocol.Next(cfg, live, sys, es[0]), es[1..]))
  }

  lemma OkIsLogged(cfg: Config<Path>, live: set<Path>, sys: System)
    requires SystemOk(cfg, live, sys)
    ensures AllLogged(sys)
  {
    forall s, c | 0 <= s < |sys.servers| && c in Cells(sys.servers[s].table)
      ensures Logged(sys.zk, c.k, c.v)
    {
      assert ServerOk(cfg, live, sys.zk, sys.servers[s]);
    }
  }

  lemma GarbageInserted(cfg: Config<Path>, zk: Zk, srv: Server, a: Action)
    requires Runnable(cfg, srv) && Enabled(srv, a) && a.PushGet? && srv.pc.p !in zk.store
    ensures var (zk', srv') := Step(cfg, zk, srv, a);
            zk' == zk && srv'.table == Insert(cfg, srv.table, srv.pc.p, a.garbage, a.tm, a.em)
  {
    hide Insert;
  }

  /** A failed get that leaves any other number in the stat has it recorded. */
  lemma GarbageIsRecorded(cfg: Config<Path>, live: set<Path>, sys: System, e: Event)
    requires SystemOk(cfg, live, sys) && Possible(cfg, live, sys, e) && !ReadsLogged(sys, e)
    ensures !AllLogged(Protocol.Next(cfg, live, sys, e))
  {
    hide Insert, StoreOk, Valid, Step, Runnable;
    var srv, sys' := sys.servers[e.s], Protocol.Next(cfg, live, sys, e);
    GarbageInserted(cfg, sys.zk, srv, e.a);
    InsertCorrect(cfg, srv.table, srv.pc.p, e.a.garbage, e.a.tm, true);
    assert Cell(cfg.hash(srv.pc.p), srv.pc.p, e.a.garbage) in Cells(sys'.servers[e.s].table);
  }

  lemma {:induction false} LoggedIffReadsLoggedFrom(cfg: Config<Path>, live: set<Path>, ok: (System, Event) -> bool,
                                                    sys: System, es: seq<Event>, sys': System)
    requires SystemOk(cfg, live, sys) && Run(cfg, live, ok, sys, es, sys')
    ensures LoggedThroughout(cfg, live, sys, es) <==> Run(cfg, live, ReadsLogged, sys, es, sys')
    decreases |es|
  {
    hide SystemOk, AllLogged, Possible, ReadsLogged;
    OkIsLogged(cfg, live, sys);
    if es != [] {
      if ReadsLogged(sys, es[0]) {
        NextOk(cfg, live, sys, es[0]);
        LoggedIffReadsLoggedFrom(cfg, live, ok, Protocol.Next(cfg, live, sys, es[0]), es[1..], sys');
      } else {
        GarbageIsRecorded(cfg, live, sys, es[0]);
      }
    }
  }

  /** In any run, all recorded versions are ones that the store has given to their paths, in every state,
      exactly if every get after a create whose version is recorded finds the znode or leaves such a
      version in the stat. */
  lemma LoggedIffReadsLogged(cfg: Config<Path>, live: set<Path>, ok: (System, Event) -> bool, n: nat, pindex: nat,
                             es: seq<Event>, sys: System)
    requires cfg.Sound() && pindex < |cfg.primes| && Run(cfg, live, ok, Initial(cfg, n, pindex), es, sys)
    ensures LoggedThroughout(cfg, live, Initial(cfg, n, pindex), es) <==>
            Run(cfg, live, ReadsLogged, Initial(cfg, n, pindex), es, sys)
  {
    InitialOk(cfg, live, n, pindex);
    LoggedIffReadsLoggedFrom(cfg, live, ok, Initial(cfg, n, pindex), es, sys);
  }

  /** The age check of no server answers "fresher than the store". */
  ghost predicate NoneAhead(cfg: Config<Path>, live: set<Path>, sys: System) {
    forall s, p :: 0 <= s < |sys.servers| && p in live && p in sys.zk.store ==>
      Runnable(cfg, sys.servers[s]) && CheckAge(cfg, sys.servers[s].table, p, sys.zk.store[p].mzxid) <= 0
  }

  /** In every reachable state, whatever the interleaving, with raced creates and with deletions:
      each version recorded for a path was given to that path by the store and is at most its
      current one, so the age check never answers "fresher than the store". */
  lemma VersionsNeverRunAhead(cfg: Config<Path>, live: set<Path>, n: nat, pindex: nat, es: seq<Event>, sys: System)
    requires CollisionFree(cfg, live) && pindex < |cfg.primes|
    requires Run(cfg, live, ReadsLogged, Initial(cfg, n, pindex), es, sys)
    ensures forall s, c :: 0 <= s < |sys.servers| && c in Cells(sys.servers[s].table) ==>
              Logged(sys.zk, c.k, c.v) && (c.k in sys.zk.store ==> c.v <= sys.zk.store[c.k].mzxid)
    ensures NoneAhead(cfg, live, sys)
  {
    InitialOk(cfg, live, n, pindex);
    RunOk(cfg, live, Initial(cfg, n, pindex), es, sys);
    forall s, c | 0 <= s < |sys.servers| && c in Cells(sys.servers[s].table)
      ensures Logged(sys.zk, c.k, c.v) && (c.k in sys.zk.store ==> c.v <= sys.zk.store[c.k].mzxid)
    {
      assert ServerOk(cfg, live, sys.zk, sys.servers[s]);
      if c.k in sys.zk.store {
        LoggedAtMostCurrent(sys.zk, c.k, c.v);
      }
    }
    forall s, p | 0 <= s < |sys.servers| && p in live && p in sys.zk.store
      ensures Runnable(cfg, sys.servers[s]) && CheckAge(cfg, sys.servers[s].table, p, sys.zk.store[p].mzxid) <= 0
    {
      assert ServerOk(cfg, live, sys.zk, sys.servers[s]);
      NeverAhead(cfg, live, sys.zk, sys.servers[s].table, p);
    }
  }
}
