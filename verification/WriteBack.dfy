/** No write-back: applying a fetched node changes the store only if the znode has been deleted since,
    and then only after the add interceptor has found it absent. */
module WriteBack {
  import opened Table
  import opened Protocol
  import opened Versions

  /** Exactly when the add interceptor goes on to push: when the znode is gone. This holds in every
      state in which versions do not run ahead, with raced creates and with deletions. */
  lemma InterceptorPushesIffZnodeIsGone(cfg: Config<Path>, live: set<Path>, zk: Zk, srv: Server)
    requires CollisionFree(cfg, live) && StoreOk(zk) && ServerOk(cfg, live, zk, srv)
    requires Runnable(cfg, srv) && Enabled(srv, Intercept)
    ensures Step(cfg, zk, srv, Intercept).1.pc.Push? <==> srv.pc.p !in zk.store
  {
    if srv.pc.p in zk.store {
      NeverAhead(cfg, live, zk, srv.table, srv.pc.p);
    }
  }

  // ---------- Only after a deletion ----------

  predicate DeletedBefore(zk: Zk, p: Path, j: nat) {
    exists i :: 0 <= i < j && i < |zk.log| && zk.log[i] == Del(p)
  }

  /** A handler that applies a fetched node stands before the znode it has fetched, or one that has been
      deleted; it pushes only what has been deleted. */
  predicate PcExcused(zk: Zk, pc: Pc) {
    match pc
    case Push(p, _, _, cause, _) => cause == Apply ==> DeletedBefore(zk, p, |zk.log|)
    case Added(p, _, cause, _) => cause == Apply ==> p in zk.store || DeletedBefore(zk, p, |zk.log|)
    case Replacing(p, _, cause) => cause == Apply ==> p in zk.store || DeletedBefore(zk, p, |zk.log|)
    case _ => true
  }

  ghost predicate LogExcused(zk: Zk) {
    forall j :: 0 <= j < |zk.log| && zk.log[j].Put? && zk.log[j].cause == Apply ==> DeletedBefore(zk, zk.log[j].path, j)
  }

  ghost predicate Excused(sys: System) {
    LogExcused(sys.zk) && forall s :: 0 <= s < |sys.servers| ==> PcExcused(sys.zk, sys.servers[s].pc)
  }

  lemma DeletedStays(zk: Zk, zk': Zk, p: Path, j: nat)
    requires Evolves(zk, zk') && DeletedBefore(zk, p, j)
    ensures DeletedBefore(zk', p, j) && DeletedBefore(zk', p, |zk'.log|)
  {
    var i :| 0 <= i < j && i < |zk.log| && zk.log[i] == Del(p);
    assert zk'.log[i] == Del(p);
  }

  lemma OthersStayExcused(zk: Zk, zk': Zk, pc: Pc)
    requires Evolves(zk, zk') && PcExcused(zk, pc)
    ensures PcExcused(zk', pc)
  {
    if pc.Push? || pc.Added? || pc.Replacing? {
      if DeletedBefore(zk, pc.p, |zk.log|) {
        DeletedStays(zk, zk', pc.p, |zk.log|);
      } else if pc.p in zk.store && pc.p !in zk'.store {
        assert zk'.log[|zk.log|] == Del(pc.p);
      }
    }
  }

  lemma StepExcused(cfg: Config<Path>, live: set<Path>, zk: Zk, srv: Server, a: Action)
    requires CollisionFree(cfg, live) && StoreOk(zk) && ServerOk(cfg, live, zk, srv)
    requires Runnable(cfg, srv) && Enabled(srv, a) && PcExcused(zk, srv.pc)
    ensures PcExcused(Step(cfg, zk, srv, a).0, Step(cfg, zk, srv, a).1.pc)
    ensures var zk' := Step(cfg, zk, srv, a).0;
            zk' != zk && zk'.log[|zk.log|].Put? && zk'.log[|zk.log|].cause == Apply ==>
              DeletedBefore(zk, zk'.log[|zk.log|].path, |zk.log|)
  {
    hide Insert, CheckAge, StoreOk, TableOk, DeletedBefore;
    var zk' := Step(cfg, zk, srv, a).0;
    StepEvolves(cfg, zk, srv, a);
    OthersStayExcused(zk, zk', srv.pc);
    if a.Intercept? {
      InterceptorPushesIffZnodeIsGone(cfg, live, zk, srv);
    }
  }

  lemma LogStaysExcused(zk: Zk, zk': Zk)
    requires Evolves(zk, zk') && LogExcused(zk)
    requires zk' != zk && zk'.log[|zk.log|].Put? && zk'.log[|zk.log|].cause == Apply ==>
               DeletedBefore(zk, zk'.log[|zk.log|].path, |zk.log|)
    ensures LogExcused(zk')
  {
    forall j | 0 <= j < |zk'.log| && zk'.log[j].Put? && zk'.log[j].cause == Apply
      ensures DeletedBefore(zk', zk'.log[j].path, j)
    {
      DeletedStays(zk, zk', zk'.log[j].path, j);
    }
  }

  lemma NextExcused(cfg: Config<Path>, live: set<Path>, sys: System, e: Event)
    requires CollisionFree(cfg, live) && SystemOk(cfg, live, sys) && Excused(sys) && Possible(cfg, live, sys, e)
    ensures Excused(Protocol.Next(cfg, live, sys, e))
  {
    hide StoreOk, ServerOk, Step, LogExcused, PcExcused, Evolves;
    var zk, srv := sys.zk, sys.servers[e.s];
    var zk' := Step(cfg, zk, srv, e.a).0;
    StepEvolves(cfg, zk, srv, e.a);
    StepExcused(cfg, live, zk, srv, e.a);
    LogStaysExcused(zk, zk');
    forall s | 0 <= s < |sys.servers| && s != e.s
      ensures PcExcused(zk', sys.servers[s].pc)
    {
      OthersStayExcused(zk, zk', sys.servers[s].pc);
    }
  }

  lemma {:induction false} RunExcused(cfg: Config<Path>, live: set<Path>, sys: System, es: seq<Event>, sys': System)
    requires CollisionFree(cfg, live) && SystemOk(cfg, live, sys) && Excused(sys)
    requires Run(cfg, live, ReadsLogged, sys, es, sys')
    ensures Excused(sys')
    decreases |es|
  {
    if es != [] {
      hide SystemOk, Excused, CollisionFree, Possible, ReadsLogged;
      NextExcused(cfg, live, sys, es[0]);
      NextOk(cfg, live, sys, es[0]);
      RunExcused(cfg, live, Protocol.Next(cfg, live, sys, es[0]), es[1..], sys');
    }
  }

  /** In every run, with raced creates and with deletions: what was written while applying a fetched node
      had been deleted before, after it existed. */
  lemma WriteBackOnlyAfterDeletion(cfg: Config<Path>, live: set<Path>, n: nat, pindex: nat, es: seq<Event>, sys: System)
    requires CollisionFree(cfg, live) && pindex < |cfg.primes|
    requires Run(cfg, live, ReadsLogged, Initial(cfg, n, pindex), es, sys)
    ensures LogExcused(sys.zk)
  {
    InitialOk(cfg, live, n, pindex);
    RunExcused(cfg, live, Initial(cfg, n, pindex), es, sys);
  }

  // ---------- Only after the znode was found absent ----------

  /** At some point of the run, server s applies a fetched node p and its interceptor finds no znode. */
  ghost predicate FoundAbsent(cfg: Config<Path>, live: set<Path>, sys: System, es: seq<Event>, s: nat, p: Path)
    decreases |es|
  {
    && es != [] && Possible(cfg, live, sys, es[0])
    && (InterceptsAbsent(sys, es[0], s, p)
        || FoundAbsent(cfg, live, Protocol.Next(cfg, live, sys, es[0]), es[1..], s, p))
  }

  predicate InterceptsAbsent(sys: System, e: Event, s: nat, p: Path) {
    && e == Event(s, Intercept) && s < |sys.servers|
    && sys.servers[s].pc.Added? && sys.servers[s].pc.p == p && sys.servers[s].pc.cause == Apply
    && p !in sys.zk.store
  }

  predicate PushesApplied(pc: Pc, p: Path) {
    pc.Push? && pc.p == p && pc.cause == Apply
  }

  lemma PushBegins(cfg: Config<Path>, live: set<Path>, sys: System, e: Event, s: nat, p: Path)
    requires CollisionFree(cfg, live) && SystemOk(cfg, live, sys) && Possible(cfg, live, sys, e) && s < |sys.servers|
    requires PushesApplied(Protocol.Next(cfg, live, sys, e).servers[s].pc, p)
    ensures PushesApplied(sys.servers[s].pc, p) || InterceptsAbsent(sys, e, s, p)
  {
    hide Insert, CheckAge, StoreOk, ServerOk;
    if e == Event(s, Intercept) {
      InterceptorPushesIffZnodeIsGone(cfg, live, sys.zk, sys.servers[s]);
    }
  }

  lemma {:induction false} PushesWereFoundAbsent(cfg: Config<Path>, live: set<Path>, sys: System, es: seq<Event>,
                                                 sys': System, s: nat, p: Path)
    requires CollisionFree(cfg, live) && SystemOk(cfg, live, sys) && s < |sys.servers|
    requires Run(cfg, live, ReadsLogged, sys, es, sys')
    ensures |sys'.servers| == |sys.servers|
    ensures PushesApplied(sys'.servers[s].pc, p) ==>
        PushesApplied(sys.servers[s].pc, p) || FoundAbsent(cfg, live, sys, es, s, p)
    decreases |es|
  {
    if es != [] {
      hide SystemOk, CollisionFree, Possible, ReadsLogged, PushesApplied, InterceptsAbsent;
      var sys1 := Protocol.Next(cfg, live, sys, es[0]);
      NextOk(cfg, live, sys, es[0]);
      PushesWereFoundAbsent(cfg, live, sys1, es[1..], sys', s, p);
      if PushesApplied(sys1.servers[s].pc, p) {
        PushBegins(cfg, live, sys, es[0], s, p);
      }
    }
  }

  /** In every run, with raced creates and with deletions: a step that changes the store while applying a
      fetched node is taken only after the same server's add interceptor has found the znode absent. */
  lemma ApplyMutatesOnlyWhatWasAbsent(cfg: Config<Path>, live: set<Path>, n: nat, pindex: nat, es: seq<Event>,
                                      sys: System, e: Event)
    requires CollisionFree(cfg, live) && pindex < |cfg.primes|
    requires Run(cfg, live, ReadsLogged, Initial(cfg, n, pindex), es, sys) && Possible(cfg, live, sys, e)
    ensures var zk' := Protocol.Next(cfg, live, sys, e).zk;
            && |sys.zk.log| <= |zk'.log|
            && (zk' != sys.zk && zk'.log[|zk'.log| - 1].Put? && zk'.log[|zk'.log| - 1].cause == Apply ==>
                  FoundAbsent(cfg, live, Initial(cfg, n, pindex), es, e.s, zk'.log[|zk'.log| - 1].path))
  {
    hide Insert, CheckAge, FoundAbsent, Run;
    InitialOk(cfg, live, n, pindex);
    ServersStay(cfg, live, ReadsLogged, Initial(cfg, n, pindex), es, sys);
    var pc := sys.servers[e.s].pc;
    if pc.Push? {
      PushesWereFoundAbsent(cfg, live, Initial(cfg, n, pindex), es, sys, e.s, pc.p);
    }
  }

  // ---------- Without deletions ----------

  /** What was put is still there, and so is what a handler has created. */
  ghost predicate Kept(sys: System) {
    && (forall i :: 0 <= i < |sys.zk.log| ==> sys.zk.log[i].Put?)
    && forall s :: 0 <= s < |sys.servers| && sys.servers[s].pc.Push? && sys.servers[s].pc.stage == Get ==>
         sys.servers[s].pc.p in sys.zk.store
  }

  lemma NextKept(cfg: Config<Path>, live: set<Path>, sys: System, e: Event)
    requires Kept(sys) && Possible(cfg, live, sys, e) && !Deletes(e.a)
    ensures ReadsLogged(sys, e) && Kept(Protocol.Next(cfg, live, sys, e))
  {
    hide Insert, CheckAge;
  }

  lemma {:induction false} RunKept(cfg: Config<Path>, live: set<Path>, sys: System, es: seq<Event>, sys': System)
    requires Kept(sys) && Run(cfg, live, NothingDeleted, sys, es, sys')
    ensures Kept(sys') && Run(cfg, live, ReadsLogged, sys, es, sys')
    decreases |es|
  {
    if es != [] {
      hide Kept, Possible, ReadsLogged;
      NextKept(cfg, live, sys, es[0]);
      RunKept(cfg, live, Protocol.Next(cfg, live, sys, es[0]), es[1..], sys');
    }
  }

  /** No write-back: in every run in which nothing is deleted, with raced creates or without, each change
      of the store was made for a client; none comes from applying a fetched node. */
  lemma ApplyingNeverWritesBack(cfg: Config<Path>, live: set<Path>, n: nat, pindex: nat, es: seq<Event>, sys: System)
    requires CollisionFree(cfg, live) && pindex < |cfg.primes|
    requires Run(cfg, live, NothingDeleted, Initial(cfg, n, pindex), es, sys)
    ensures forall i :: 0 <= i < |sys.zk.log| ==> sys.zk.log[i].Put? && sys.zk.log[i].cause == Client
  {
    RunKept(cfg, live, Initial(cfg, n, pindex), es, sys);
    WriteBackOnlyAfterDeletion(cfg, live, n, pindex, es, sys);
  }
}
