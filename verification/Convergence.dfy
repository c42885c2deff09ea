/** What undisturbed fetches come to: when they bring a server up to the store, and which nodes a server
    misses because it fetches them before their parents. */
module Convergence {
  import opened Sequences
  import opened Table
  import opened Protocol
  import opened Handlers
  import opened Versions
  import opened Coherence
  import opened Losses
  import opened Runs
  import opened ReadingBack

  type Admits = (map<Path, Data>, Path, Data) -> bool

  /** The local nodes after a fetched node has been applied, given what the library admits. */
  function Applied(local: map<Path, Data>, p: Path, d: Data, admits: Admits): map<Path, Data> {
    if !admits(local, p, d) then local
    else if p !in local then local[p := d]
    else if admits(local - {p}, p, d) then local[p := d]
    else local - {p}
  }

  // ---------- One fetch ----------

  /** The interceptor of an undisturbed add lets a node that is in the store through. */
  lemma DriveThrough(cfg: Config<Path>, live: set<Path>, zk: Zk, srv: Server, luck: Luck)
    requires CollisionFree(cfg, live) && StoreOk(zk) && TableOk(cfg, live, zk, srv.table) && Runnable(cfg, srv)
    requires srv.pc.Added? && srv.pc.resume == Done && srv.pc.p in live && srv.pc.p in zk.store
    ensures Drive(cfg, zk, srv, luck) == (zk, srv.(pc := Idle))
  {
    hide Drive;
    NeverAhead(cfg, live, zk, srv.table, srv.pc.p);
    DriveAdded(cfg, zk, srv, luck);
  }

  /** The handler of a fetched node that exists locally deletes it and adds the fetched one. */
  lemma DriveOver(cfg: Config<Path>, live: set<Path>, zk: Zk, srv: Server, luck: Luck)
    requires CollisionFree(cfg, live) && StoreOk(zk) && TableOk(cfg, live, zk, srv.table) && Runnable(cfg, srv)
    requires srv.pc.Added? && srv.pc.resume == SecondAdd && srv.pc.p in live && srv.pc.p in zk.store
    ensures var p, d, deleted := srv.pc.p, srv.pc.d, srv.local - {srv.pc.p};
            Drive(cfg, zk, srv, luck) ==
            (zk, srv.(local := if luck.admits(deleted, p, d) then srv.local[p := d] else deleted,
                      replicate := false, pc := Idle))
  {
    hide Drive, StoreOk, TableOk, CheckAge;
    var added := srv.(pc := Added(srv.pc.p, srv.pc.d, srv.pc.cause, Done));
    DriveThrough(cfg, live, zk, added, luck);
    ContinueLater(cfg, zk, added, luck, SecondAdd);
    assert srv == added.(pc := Resuming(added.pc, SecondAdd));
    var over := srv.(pc := Replacing(srv.pc.p, srv.pc.d, srv.pc.cause));
    DriveReplacing(cfg, zk, over, luck);
    var deleted := srv.local - {srv.pc.p};
    DriveThrough(cfg, live, zk,
                 over.(local := if luck.admits(deleted, srv.pc.p, srv.pc.d) then srv.local[srv.pc.p := srv.pc.d]
                                else deleted,
                       replicate := false, pc := Added(srv.pc.p, srv.pc.d, srv.pc.cause, Done)), luck);
  }

  /** An undisturbed fetch either is skipped, or records the version and applies the node; it changes no
      other node and not the store. */
  lemma FetchApplies(cfg: Config<Path>, live: set<Path>, zk: Zk, srv: Server, p: Path, luck: Luck)
    requires CollisionFree(cfg, live) && StoreOk(zk) && ServerOk(cfg, live, zk, srv)
    requires srv.pc.Idle? && p in live && p in zk.store
    ensures Runnable(cfg, srv)
    ensures var (zk', srv') := Fetching(cfg, zk, srv, p, luck);
            && zk' == zk && srv'.pc.Idle? && ServerOk(cfg, live, zk, srv')
            && if CheckAge(cfg, srv.table, p, zk.store[p].mzxid) == 0 then srv' == srv
               else
                 && srv'.local == Applied(srv.local, p, zk.store[p].data, luck.admits)
                 && srv'.table == Insert(cfg, srv.table, p, zk.store[p].mzxid, luck.tm, luck.em)
  {
    hide Drive, Fetching, StoreOk, Insert, CheckAge, Search, TableOk;
    OkIsRunnable(cfg, live, zk, srv);
    NeverAhead(cfg, live, zk, srv.table, p);
    FetchCases(cfg, zk, srv, p, luck);
    if CheckAge(cfg, srv.table, p, zk.store[p].mzxid) != 0 {
      var d := zk.store[p].data;
      var srv1 := Step(cfg, zk, srv, FetchBy(zk, srv, p, luck)).1;
      StepOk(cfg, live, zk, srv, FetchBy(zk, srv, p, luck));
      OkIsRunnable(cfg, live, zk, srv1);
      if srv1.pc.resume == SecondAdd {
        DriveOver(cfg, live, zk, srv1, luck);
      } else {
        DriveThrough(cfg, live, zk, srv1, luck);
      }
    }
  }

  /** Where the records are true, and the library admits the node, an undisturbed fetch leaves the local copy
      equal to the store, whether it was applied, applied by deleting and re-adding, or skipped. */
  lemma FetchBringsUpToDate(cfg: Config<Path>, live: set<Path>, zk: Zk, srv: Server, p: Path, luck: Luck)
    requires CollisionFree(cfg, live) && StoreOk(zk) && ServerOk(cfg, live, zk, srv) && Fresh(zk, srv)
    requires srv.pc.Idle? && p in live && p in zk.store
    requires luck.admits(srv.local, p, zk.store[p].data)
    requires p in srv.local ==> luck.admits(srv.local - {p}, p, zk.store[p].data)
    ensures var (zk', srv') := Fetching(cfg, zk, srv, p, luck);
            && zk' == zk && srv'.pc.Idle? && srv'.local == srv.local[p := zk.store[p].data]
            && ServerOk(cfg, live, zk, srv') && Fresh(zk, srv')
  {
    hide Fetching, StoreOk, Insert, CheckAge, Fresh, TableOk;
    FetchApplies(cfg, live, zk, srv, p, luck);
    var srv' := Fetching(cfg, zk, srv, p, luck).1;
    if CheckAge(cfg, srv.table, p, zk.store[p].mzxid) == 0 {
      AsFreshMeansEqual(cfg, live, zk, srv, p);
    } else {
      RecordingKeepsTrue(cfg, live, zk, zk, srv, srv', p, zk.store[p].mzxid, luck.tm, luck.em);
    }
  }

  // ---------- All children ----------

  /** The nodes of the store, as a server should hold them. */
  function Contents(zk: Zk): map<Path, Data> {
    map p | p in zk.store :: zk.store[p].data
  }

  /** The library refuses no add but of a node that exists. */
  ghost predicate AdmitsAll(admits: Admits) {
    forall local, p, d :: admits(local, p, d)
  }

  /** srv' holds the store's data for each of ps, and elsewhere what srv holds. */
  ghost predicate Restored(zk: Zk, ps: seq<Path>, srv: Server, srv': Server) {
    forall p :: LocalAt(srv', p) == if p in ps && p in zk.store then Some(zk.store[p].data) else LocalAt(srv, p)
  }

  /** The paths are live, and in the store. */
  predicate Listed(live: set<Path>, zk: Zk, ps: seq<Path>) {
    forall p :: p in ps ==> p in live && p in zk.store
  }

  /** A server whose records are true and that fetches the nodes ps, undisturbed, ends with the store's data
      for each of them, holds the others as before, and has not changed the store. */
  lemma {:induction false} FetchEachConverges(cfg: Config<Path>, live: set<Path>, zk: Zk, srv: Server, ps: seq<Path>,
                                              luck: Luck)
    requires CollisionFree(cfg, live) && StoreOk(zk) && ServerOk(cfg, live, zk, srv) && Fresh(zk, srv)
    requires srv.pc.Idle? && Listed(live, zk, ps) && AdmitsAll(luck.admits)
    ensures var (zk', srv') := FetchEach(cfg, zk, srv, ps, luck);
            && zk' == zk && srv'.pc.Idle? && ServerOk(cfg, live, zk, srv') && Fresh(zk, srv')
            && Restored(zk, ps, srv, srv')
    decreases |ps|
  {
    if ps != [] {
      hide Fetching, StoreOk, ServerOk, Fresh;
      assert ps[0] in ps && forall p :: p in ps <==> p == ps[0] || p in ps[1..];
      FetchBringsUpToDate(cfg, live, zk, srv, ps[0], luck);
      var srv1 := Fetching(cfg, zk, srv, ps[0], luck).1;
      FetchEachConverges(cfg, live, zk, srv1, ps[1..], luck);
      assert LocalAt(srv1, ps[0]) == Some(zk.store[ps[0]].data);
    }
  }

  /** The local node at p, if there is one. */
  function LocalAt(srv: Server, p: Path): Option<Data> {
    if p in srv.local then Some(srv.local[p]) else None
  }

  /** Servers s, s + 1, ... fetch the nodes ps, one server after the other. */
  function AllFetch(cfg: Config<Path>, sys: System, ps: seq<Path>, luck: Luck, s: nat): System
    decreases |sys.servers| - s
  {
    if s >= |sys.servers| then sys
    else
      var (zk', srv') := FetchEach(cfg, sys.zk, sys.servers[s], ps, luck);
      AllFetch(cfg, System(zk', sys.servers[s := srv']), ps, luck, s + 1)
  }

  ghost predicate AllIdle(sys: System) {
    forall s :: 0 <= s < |sys.servers| ==> sys.servers[s].pc.Idle?
  }

  ghost predicate Settled(cfg: Config<Path>, live: set<Path>, sys: System) {
    SystemOk(cfg, live, sys) && RecordsTrue(sys) && AllIdle(sys)
  }

  lemma OneFetches(cfg: Config<Path>, live: set<Path>, sys: System, ps: seq<Path>, luck: Luck, s: nat)
    requires CollisionFree(cfg, live) && Settled(cfg, live, sys) && s < |sys.servers|
    requires Listed(live, sys.zk, ps) && AdmitsAll(luck.admits)
    ensures var (zk', srv') := FetchEach(cfg, sys.zk, sys.servers[s], ps, luck);
            && zk' == sys.zk && Restored(sys.zk, ps, sys.servers[s], srv')
            && Settled(cfg, live, System(sys.zk, sys.servers[s := srv']))
  {
    hide StoreOk, ServerOk, Fresh, FetchEach, CollisionFree, AdmitsAll, Restored;
    assert ServerOk(cfg, live, sys.zk, sys.servers[s]) && Fresh(sys.zk, sys.servers[s]);
    FetchEachConverges(cfg, live, sys.zk, sys.servers[s], ps, luck);
  }

  lemma {:induction false} AllFetchConverges(cfg: Config<Path>, live: set<Path>, sys: System, ps: seq<Path>,
                                             luck: Luck, s: nat)
    requires CollisionFree(cfg, live) && Settled(cfg, live, sys)
    requires Listed(live, sys.zk, ps) && AdmitsAll(luck.admits)
    ensures var sys' := AllFetch(cfg, sys, ps, luck, s);
            && sys'.zk == sys.zk && |sys'.servers| == |sys.servers|
            && forall i :: 0 <= i < |sys.servers| ==>
                 if i < s then sys'.servers[i] == sys.servers[i]
                 else Restored(sys.zk, ps, sys.servers[i], sys'.servers[i])
    decreases |sys.servers| - s
  {
    if s < |sys.servers| {
      hide Settled, FetchEach, CollisionFree, AdmitsAll, Restored, Listed;
      OneFetches(cfg, live, sys, ps, luck, s);
      var (zk', srv') := FetchEach(cfg, sys.zk, sys.servers[s], ps, luck);
      var sys1 := System(zk', sys.servers[s := srv']);
      AllFetchConverges(cfg, live, sys1, ps, luck, s + 1);
      var sys' := AllFetch(cfg, sys1, ps, luck, s + 1);
      assert AllFetch(cfg, sys, ps, luck, s) == sys';
      forall i | 0 <= i < |sys.servers|
        ensures if i < s then sys'.servers[i] == sys.servers[i]
                else Restored(sys.zk, ps, sys.servers[i], sys'.servers[i])
      {
        assert sys1.servers[i] == if i == s then srv' else sys.servers[i];
      }
    }
  }

  // ---------- After any run ----------

  /** The nodes of the store are live. */
  ghost predicate StoreLive(live: set<Path>, zk: Zk) {
    forall p :: p in zk.store ==> p in live
  }

  lemma NextLive(cfg: Config<Path>, live: set<Path>, sys: System, e: Event)
    requires SystemOk(cfg, live, sys) && StoreLive(live, sys.zk) && Possible(cfg, live, sys, e)
    ensures StoreLive(live, Protocol.Next(cfg, live, sys, e).zk)
  {
    hide StoreOk, TableOk, Insert, CheckAge;
    assert ServerOk(cfg, live, sys.zk, sys.servers[e.s]);
  }

  lemma {:induction false} RunLive(cfg: Config<Path>, live: set<Path>, ok: (System, Event) -> bool, sys: System,
                                   es: seq<Event>, sys': System)
    requires SystemOk(cfg, live, sys) && StoreLive(live, sys.zk) && Run(cfg, live, ok, sys, es, sys')
    requires forall s, e :: ok(s, e) ==> ReadsLogged(s, e)
    ensures StoreLive(live, sys'.zk)
    decreases |es|
  {
    if es != [] {
      hide SystemOk, StoreLive, Possible, ReadsLogged;
      NextLive(cfg, live, sys, es[0]);
      NextOk(cfg, live, sys, es[0]);
      RunLive(cfg, live, ok, Protocol.Next(cfg, live, sys, es[0]), es[1..], sys');
    }
  }

  /** After any run in which no step loses coherence, with deletions and raced creates, and which leaves all
      servers idle: once every server has fetched all children, each of them holds the store's data for every
      znode, and holds what is no znode as before. */
  lemma FetchingRestoresTheStore(cfg: Config<Path>, live: set<Path>, n: nat, pindex: nat, es: seq<Event>, sys: System,
                                 ps: seq<Path>, luck: Luck)
    requires CollisionFree(cfg, live) && pindex < |cfg.primes|
    requires Run(cfg, live, Lossless(cfg), Initial(cfg, n, pindex), es, sys) && AllIdle(sys)
    requires (forall p :: p in ps <==> p in sys.zk.store) && AdmitsAll(luck.admits)
    ensures var sys' := AllFetch(cfg, sys, ps, luck, 0);
            && sys'.zk == sys.zk && |sys'.servers| == |sys.servers|
            && forall i :: 0 <= i < |sys.servers| ==>
                 Restored(sys.zk, ps, sys.servers[i], sys'.servers[i])
  {
    hide CollisionFree, Keeps, AdmitsAll;
    assert cfg.Sound() by { SoundConfig(cfg, live); }
    InitialSound(cfg, live, n, pindex);
    RunSound(cfg, live, Initial(cfg, n, pindex), es, sys);
    KeepsReadsLogged(cfg);
    RunLive(cfg, live, Lossless(cfg), Initial(cfg, n, pindex), es, sys);
    AllFetchConverges(cfg, live, sys, ps, luck, 0);
  }

  lemma SoundConfig(cfg: Config<Path>, live: set<Path>)
    requires CollisionFree(cfg, live)
    ensures cfg.Sound()
  {
  }

  /** Nothing is deleted, and no step loses coherence. */
  function Growing(cfg: Config<Path>): (System, Event) -> bool {
    (sys, e: Event) => !Deletes(e.a) && Keeps(cfg, sys, e)
  }

  lemma {:induction false} RunStored(cfg: Config<Path>, live: set<Path>, sys: System, es: seq<Event>, sys': System)
    requires AllStored(sys) && Run(cfg, live, NothingDeleted, sys, es, sys')
    ensures AllStored(sys')
    decreases |es|
  {
    if es != [] {
      hide AllStored, Possible;
      NextStored(cfg, live, sys, es[0]);
      RunStored(cfg, live, Protocol.Next(cfg, live, sys, es[0]), es[1..], sys');
    }
  }

  /** After any run in which nothing is deleted and no step loses coherence, and which leaves all servers idle:
      once every server has fetched all children, all of them hold exactly the contents of the store. */
  lemma AllServersAgree(cfg: Config<Path>, live: set<Path>, n: nat, pindex: nat, es: seq<Event>, sys: System,
                        ps: seq<Path>, luck: Luck)
    requires CollisionFree(cfg, live) && pindex < |cfg.primes|
    requires Run(cfg, live, Growing(cfg), Initial(cfg, n, pindex), es, sys) && AllIdle(sys)
    requires (forall p :: p in ps <==> p in sys.zk.store) && AdmitsAll(luck.admits)
    ensures var sys' := AllFetch(cfg, sys, ps, luck, 0);
            && sys'.zk == sys.zk && |sys'.servers| == |sys.servers|
            && forall i :: 0 <= i < |sys.servers| ==> sys'.servers[i].local == Contents(sys.zk)
  {
    hide CollisionFree, Keeps, AdmitsAll, Run, AllFetch;
    var first, sys' := Initial(cfg, n, pindex), AllFetch(cfg, sys, ps, luck, 0);
    RunWeaken(cfg, live, Growing(cfg), Lossless(cfg), first, es, sys);
    RunWeaken(cfg, live, Growing(cfg), NothingDeleted, first, es, sys);
    FetchingRestoresTheStore(cfg, live, n, pindex, es, sys, ps, luck);
    RunStored(cfg, live, first, es, sys);
    forall i | 0 <= i < |sys.servers|
      ensures sys'.servers[i].local == Contents(sys.zk)
    {
      assert Stored(sys.zk, sys.servers[i]);
      RestoredIsContents(sys'.servers[i], sys.servers[i], sys.zk, ps);
    }
  }

  lemma RestoredIsContents(srv': Server, srv: Server, zk: Zk, ps: seq<Path>)
    requires (forall p :: p in ps <==> p in zk.store) && Restored(zk, ps, srv, srv')
    requires forall p :: p in srv.local ==> p in zk.store
    ensures srv'.local == Contents(zk)
  {
    forall p
      ensures p in srv'.local <==> p in Contents(zk)
      ensures p in srv'.local ==> srv'.local[p] == Contents(zk)[p]
    {
      assert LocalAt(srv', p) == if p in ps && p in zk.store then Some(zk.store[p].data) else LocalAt(srv, p);
    }
  }

  // ---------- Undisturbed handlers are runs ----------

  predicate Anything(sys: System, e: Event) {
    true
  }

  lemma {:induction false} RunConcat(cfg: Config<Path>, live: set<Path>, ok: (System, Event) -> bool, sys: System,
                                     es: seq<Event>, sys1: System, es1: seq<Event>, sys2: System)
    requires Run(cfg, live, ok, sys, es, sys1) && Run(cfg, live, ok, sys1, es1, sys2)
    ensures Run(cfg, live, ok, sys, es + es1, sys2)
    decreases |es|
  {
    if es == [] {
      assert es + es1 == es1;
    } else {
      assert (es + es1)[1..] == es[1..] + es1;
      RunConcat(cfg, live, ok, Protocol.Next(cfg, live, sys, es[0]), es[1..], sys1, es1, sys2);
    }
  }

  lemma OneIsRun(cfg: Config<Path>, live: set<Path>, sys: System, e: Event)
    requires Possible(cfg, live, sys, e)
    ensures Run(cfg, live, Anything, sys, [e], Protocol.Next(cfg, live, sys, e))
  {
    assert Run(cfg, live, Anything, Protocol.Next(cfg, live, sys, e), [e][1..], Protocol.Next(cfg, live, sys, e));
  }

  /** What a handler does undisturbed is a run of the whole system. */
  lemma {:induction false} DriveIsRun(cfg: Config<Path>, live: set<Path>, sys: System, s: nat, luck: Luck)
    returns (es: seq<Event>)
    requires s < |sys.servers| && Runnable(cfg, sys.servers[s])
    ensures var (zk', srv') := Drive(cfg, sys.zk, sys.servers[s], luck);
            Run(cfg, live, Anything, sys, es, System(zk', sys.servers[s := srv']))
    decreases Work(sys.servers[s].pc)
  {
    hide Step, Run;
    var srv := sys.servers[s];
    if srv.pc.Idle? {
      es := [];
      assert sys.servers[s := srv] == sys.servers;
      RunNothing(cfg, live, Anything, sys);
    } else {
      var e := Event(s, Continues(srv, luck));
      DriveOne(cfg, sys.zk, srv, luck);
      OneIsRun(cfg, live, sys, e);
      var sys1 := Protocol.Next(cfg, live, sys, e);
      WorkShrinks(cfg, sys.zk, srv, luck);
      es := DriveIsRun(cfg, live, sys1, s, luck);
      RunConcat(cfg, live, Anything, sys, [e], sys1, es,
                System(Drive(cfg, sys.zk, srv, luck).0, sys1.servers[s := Drive(cfg, sys.zk, srv, luck).1]));
      assert sys1.servers[s := Drive(cfg, sys.zk, srv, luck).1] == sys.servers[s := Drive(cfg, sys.zk, srv, luck).1];
      es := [e] + es;
    }
  }

  lemma WorkShrinks(cfg: Config<Path>, zk: Zk, srv: Server, luck: Luck)
    requires Runnable(cfg, srv) && !srv.pc.Idle?
    ensures Work(Step(cfg, zk, srv, Continues(srv, luck)).1.pc) < Work(srv.pc)
  {
    hide CheckAge, Insert, Return, Record;
    if srv.pc.Push? || srv.pc.Added? {
      ReturnWork(srv.pc.p, srv.pc.d, srv.pc.cause, srv.pc.resume);
    }
  }

  lemma ReturnWork(p: Path, d: Data, cause: Cause, r: Resume)
    ensures forall srv: Server :: Work(Return(srv, p, d, cause, r).pc) <= After(r)
  {
  }

  lemma FetchIsRun(cfg: Config<Path>, live: set<Path>, sys: System, s: nat, p: Path, luck: Luck)
    returns (es: seq<Event>)
    requires s < |sys.servers| && Runnable(cfg, sys.servers[s]) && sys.servers[s].pc.Idle? && p in live
    ensures var (zk', srv') := Fetching(cfg, sys.zk, sys.servers[s], p, luck);
            Run(cfg, live, Anything, sys, es, System(zk', sys.servers[s := srv']))
  {
    hide Step, Run, Drive;
    var srv := sys.servers[s];
    var e := Event(s, FetchBy(sys.zk, srv, p, luck));
    StepRunnable(cfg, sys.zk, srv, e.a);
    OneIsRun(cfg, live, sys, e);
    var sys1 := Protocol.Next(cfg, live, sys, e);
    es := DriveIsRun(cfg, live, sys1, s, luck);
    var (zk', srv') := Fetching(cfg, sys.zk, srv, p, luck);
    assert sys1.servers[s := srv'] == sys.servers[s := srv'];
    RunConcat(cfg, live, Anything, sys, [e], sys1, es, System(zk', sys.servers[s := srv']));
    es := [e] + es;
  }

  lemma {:induction false} FetchEachIsRun(cfg: Config<Path>, live: set<Path>, sys: System, s: nat, ps: seq<Path>,
                                          luck: Luck)
    returns (es: seq<Event>)
    requires CollisionFree(cfg, live) && Settled(cfg, live, sys) && s < |sys.servers|
    requires Listed(live, sys.zk, ps) && AdmitsAll(luck.admits)
    ensures var (zk', srv') := FetchEach(cfg, sys.zk, sys.servers[s], ps, luck);
            Run(cfg, live, Anything, sys, es, System(zk', sys.servers[s := srv']))
    decreases |ps|
  {
    hide Run, Fetching, CollisionFree, StoreOk, ServerOk, Fresh, AdmitsAll, Restored;
    var srv := sys.servers[s];
    if ps == [] {
      es := [];
      assert sys.servers[s := srv] == sys.servers;
      RunNothing(cfg, live, Anything, sys);
    } else {
      assert ps[0] in ps && FetchEach(cfg, sys.zk, srv, ps[..1], luck) == Fetching(cfg, sys.zk, srv, ps[0], luck);
      assert ServerOk(cfg, live, sys.zk, srv);
      OkIsRunnable(cfg, live, sys.zk, srv);
      OneFetches(cfg, live, sys, ps[..1], luck, s);
      var es1 := FetchIsRun(cfg, live, sys, s, ps[0], luck);
      var (zk1, srv1) := Fetching(cfg, sys.zk, srv, ps[0], luck);
      var sys1 := System(zk1, sys.servers[s := srv1]);
      es := FetchEachIsRun(cfg, live, sys1, s, ps[1..], luck);
      var (zk', srv') := FetchEach(cfg, sys.zk, srv, ps, luck);
      assert sys1.servers[s := srv'] == sys.servers[s := srv'];
      RunConcat(cfg, live, Anything, sys, es1, sys1, es, System(zk', sys.servers[s := srv']));
      es := es1 + es;
    }
  }

  /** All servers fetching all children, one after the other, is a run of the system. */
  lemma {:induction false} AllFetchIsRun(cfg: Config<Path>, live: set<Path>, sys: System, ps: seq<Path>, luck: Luck,
                                         s: nat)
    returns (es: seq<Event>)
    requires CollisionFree(cfg, live) && Settled(cfg, live, sys)
    requires Listed(live, sys.zk, ps) && AdmitsAll(luck.admits)
    ensures Run(cfg, live, Anything, sys, es, AllFetch(cfg, sys, ps, luck, s))
    decreases |sys.servers| - s
  {
    hide Run, FetchEach, CollisionFree, Settled, AdmitsAll, Restored;
    if s >= |sys.servers| {
      es := [];
      RunNothing(cfg, live, Anything, sys);
    } else {
      OneFetches(cfg, live, sys, ps, luck, s);
      var es1 := FetchEachIsRun(cfg, live, sys, s, ps, luck);
      var (zk', srv') := FetchEach(cfg, sys.zk, sys.servers[s], ps, luck);
      var sys1 := System(zk', sys.servers[s := srv']);
      es := AllFetchIsRun(cfg, live, sys1, ps, luck, s + 1);
      RunConcat(cfg, live, Anything, sys, es1, sys1, es, AllFetch(cfg, sys, ps, luck, s));
      es := es1 + es;
    }
  }
}
