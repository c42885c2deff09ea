/** Runs in which nothing is deleted and no local add is refused but for a node that exists: coherence comes
    down to whether the gets that follow creates read back what was pushed. */
module ReadingBack {
  import opened Table
  import opened Protocol
  import opened Runs
  import opened Versions
  import opened Coherence
  import opened Losses

  // ---------- Without deletions: what is local is stored ----------

  /** What the handler has found in the store, or put there, is still there. */
  predicate PcStored(zk: Zk, pc: Pc) {
    match pc
    case Push(p, _, stage, cause, resume) =>
      && (stage.Set? || stage.Get? || cause == Apply ==> p in zk.store)
      && (resume.SecondAdd? ==> cause == Apply)
    case Added(p, _, cause, resume) => (cause == Apply ==> p in zk.store) && (resume.SecondAdd? ==> cause == Apply)
    case Replacing(p, _, cause) => p in zk.store && cause == Apply
    case _ => true
  }

  /** Every local node is in the store, except one that a client has just added. */
  ghost predicate Stored(zk: Zk, srv: Server) {
    && PcStored(zk, srv.pc)
    && forall p :: p in srv.local ==>
         p in zk.store || (srv.pc.Added? && srv.pc.p == p && srv.pc.cause == Client) || (srv.pc.Push? && srv.pc.p == p)
  }

  ghost predicate AllStored(sys: System) {
    forall s :: 0 <= s < |sys.servers| ==> Stored(sys.zk, sys.servers[s])
  }

  lemma StepStored(cfg: Config<Path>, zk: Zk, srv: Server, a: Action)
    requires Stored(zk, srv) && Runnable(cfg, srv) && Enabled(srv, a) && !Deletes(a)
    ensures Stored(Step(cfg, zk, srv, a).0, Step(cfg, zk, srv, a).1)
    ensures forall p :: p in zk.store ==> p in Step(cfg, zk, srv, a).0.store
  {
    hide Insert, CheckAge;
  }

  lemma NextStored(cfg: Config<Path>, live: set<Path>, sys: System, e: Event)
    requires AllStored(sys) && Possible(cfg, live, sys, e) && !Deletes(e.a)
    ensures AllStored(Protocol.Next(cfg, live, sys, e)) && ReadsLogged(sys, e)
  {
    hide Step;
    assert Stored(sys.zk, sys.servers[e.s]);
    StepStored(cfg, sys.zk, sys.servers[e.s], e.a);
    forall s | 0 <= s < |sys.servers| && s != e.s
      ensures Stored(Step(cfg, sys.zk, sys.servers[e.s], e.a).0, sys.servers[s])
    {
      assert Stored(sys.zk, sys.servers[s]);
    }
  }

  // ---------- Without refused adds: what is pushed is held ----------

  ghost predicate Held(zk: Zk, srv: Server) {
    match srv.pc
    case Pushing(todo) => forall p :: p in todo ==> p in srv.local
    case Push(p, d, _, cause, resume) =>
      && cause == Client && p in srv.local && srv.local[p] == d
      && forall q :: q in Rest(resume) ==> q in srv.local
    case Added(p, d, cause, resume) =>
      cause == Client ==> p in srv.local && (srv.local[p] == d || p in zk.store)
    case _ => true
  }

  ghost predicate AllHeld(sys: System) {
    forall s :: 0 <= s < |sys.servers| ==> Held(sys.zk, sys.servers[s])
  }

  lemma StepHeld(cfg: Config<Path>, live: set<Path>, zk: Zk, srv: Server, a: Action)
    requires CollisionFree(cfg, live) && StoreOk(zk) && ServerOk(cfg, live, zk, srv) && Stored(zk, srv) && Held(zk, srv)
    requires Runnable(cfg, srv) && Enabled(srv, a) && !Deletes(a) && Admitted(a)
    ensures Held(Step(cfg, zk, srv, a).0, Step(cfg, zk, srv, a).1)
  {
    hide Insert, CheckAge, TableOk, StoreOk;
    if a.Intercept? && srv.pc.p in zk.store {
      NeverAhead(cfg, live, zk, srv.table, srv.pc.p);
    }
  }

  lemma NextHeld(cfg: Config<Path>, live: set<Path>, sys: System, e: Event)
    requires CollisionFree(cfg, live) && SystemOk(cfg, live, sys) && AllStored(sys) && AllHeld(sys)
    requires Possible(cfg, live, sys, e) && Admitting(sys, e)
    ensures AllHeld(Protocol.Next(cfg, live, sys, e))
  {
    hide Step, ServerOk, StoreOk, Stored;
    StepStored(cfg, sys.zk, sys.servers[e.s], e.a);
    StepHeld(cfg, live, sys.zk, sys.servers[e.s], e.a);
    forall s | 0 <= s < |sys.servers| && s != e.s
      ensures Held(Step(cfg, sys.zk, sys.servers[e.s], e.a).0, sys.servers[s])
    {
      assert Held(sys.zk, sys.servers[s]);
    }
  }

  /** In such a state the one way to lose coherence is a get that does not read back what was pushed. */
  lemma LosesIffMisread(cfg: Config<Path>, zk: Zk, srv: Server, a: Action)
    requires Runnable(cfg, srv) && Enabled(srv, a) && Stored(zk, srv) && Held(zk, srv) && !Deletes(a) && Admitted(a)
    ensures Loses(cfg, zk, srv, a) <==>
              a.PushGet? && a.em && srv.pc.p !in Rest(srv.pc.resume) && zk.store[srv.pc.p].data != srv.pc.d
    ensures !Removes(srv, a).Some?
  {
    hide CheckAge;
  }

  // ---------- Runs ----------

  ghost predicate Orderly(cfg: Config<Path>, live: set<Path>, sys: System) {
    SystemOk(cfg, live, sys) && AllStored(sys) && AllHeld(sys)
  }

  lemma NextOrderly(cfg: Config<Path>, live: set<Path>, sys: System, e: Event)
    requires CollisionFree(cfg, live) && Orderly(cfg, live, sys) && Possible(cfg, live, sys, e) && Admitting(sys, e)
    ensures Orderly(cfg, live, Protocol.Next(cfg, live, sys, e))
    ensures Shown(cfg)(sys, e) && (Keeps(cfg, sys, e) <==> ReadsBack(sys, e))
  {
    hide Protocol.Next, SystemOk, Stored, Held, Loses, Removes, CurrentRecorded;
    NextStored(cfg, live, sys, e);
    NextHeld(cfg, live, sys, e);
    NextOk(cfg, live, sys, e);
    var zk, srv := sys.zk, sys.servers[e.s];
    assert Stored(zk, srv) && Held(zk, srv);
    LosesIffMisread(cfg, zk, srv, e.a);
    assert e.a.PushGet? ==> srv.pc.p in zk.store by { GetFinds(zk, srv, e.a); }
  }

  lemma GetFinds(zk: Zk, srv: Server, a: Action)
    requires Stored(zk, srv) && Enabled(srv, a)
    ensures a.PushGet? ==> srv.pc.p in zk.store
  {
  }

  lemma {:induction false} ReadsBackIffLossless(cfg: Config<Path>, live: set<Path>, sys: System, es: seq<Event>,
                                                sys': System)
    requires CollisionFree(cfg, live) && Orderly(cfg, live, sys) && Run(cfg, live, Admitting, sys, es, sys')
    ensures Run(cfg, live, Shown(cfg), sys, es, sys') && Orderly(cfg, live, sys')
    ensures Run(cfg, live, ReadsBack, sys, es, sys') <==> Run(cfg, live, Lossless(cfg), sys, es, sys')
    decreases |es|
  {
    if es != [] {
      hide Orderly, Possible, Protocol.Next, Admitting, ReadsBack, Keeps, CollisionFree;
      NextOrderly(cfg, live, sys, es[0]);
      ReadsBackIffLossless(cfg, live, Protocol.Next(cfg, live, sys, es[0]), es[1..], sys');
    }
  }

  lemma InitialOrderly(cfg: Config<Path>, live: set<Path>, n: nat, pindex: nat)
    requires cfg.Sound() && pindex < |cfg.primes|
    ensures Orderly(cfg, live, Initial(cfg, n, pindex))
  {
    InitialOk(cfg, live, n, pindex);
  }

  /** Where nothing is deleted and no local add is refused but for a node that exists, coherence holds in
      every state of a run exactly if every get after a create reads back what was pushed. */
  lemma CoherentIffReadsBack(cfg: Config<Path>, live: set<Path>, n: nat, pindex: nat, es: seq<Event>, sys: System)
    requires CollisionFree(cfg, live) && pindex < |cfg.primes|
    requires Run(cfg, live, Admitting, Initial(cfg, n, pindex), es, sys)
    ensures CoherentThroughout(cfg, live, Initial(cfg, n, pindex), es) <==>
            Run(cfg, live, ReadsBack, Initial(cfg, n, pindex), es, sys)
  {
    InitialOrderly(cfg, live, n, pindex);
    ReadsBackIffLossless(cfg, live, Initial(cfg, n, pindex), es, sys);
    CoherentIffLossless(cfg, live, n, pindex, es, sys);
  }

  /** So a fetch that is skipped leaves no stale copy, in any run in which every get reads back. */
  lemma SkippingNeverLeavesAStaleCopy(cfg: Config<Path>, live: set<Path>, n: nat, pindex: nat, es: seq<Event>,
                                      sys: System)
    requires CollisionFree(cfg, live) && pindex < |cfg.primes|
    requires Run(cfg, live, ReadsBack, Initial(cfg, n, pindex), es, sys)
    ensures Coherent(cfg, live, sys)
  {
    InitialOrderly(cfg, live, n, pindex);
    RunWeaken(cfg, live, ReadsBack, Admitting, Initial(cfg, n, pindex), es, sys);
    ReadsBackIffLossless(cfg, live, Initial(cfg, n, pindex), es, sys);
    LosslessIsCoherent(cfg, live, n, pindex, es, sys);
  }

  // ---------- Runs in which no create is raced ----------

  /** A server that is creating a znode finds it absent, and after that holds what it created. */
  predicate Alone(zk: Zk, srv: Server) {
    srv.pc.Push? ==>
      && (srv.pc.stage == Create ==> srv.pc.p !in zk.store)
      && (srv.pc.stage == Get ==> srv.pc.p in zk.store && zk.store[srv.pc.p].data == srv.pc.d)
  }

  ghost predicate AllAlone(sys: System) {
    forall s :: 0 <= s < |sys.servers| ==> Alone(sys.zk, sys.servers[s])
  }

  lemma NextAlone(cfg: Config<Path>, live: set<Path>, sys: System, e: Event)
    requires AllAlone(sys) && Possible(cfg, live, sys, e) && Calm(sys, e)
    ensures GetsBack(sys, e) && AllAlone(Protocol.Next(cfg, live, sys, e))
  {
    hide Insert, CheckAge;
    var zk, srv := sys.zk, sys.servers[e.s];
    var (zk', srv') := Step(cfg, zk, srv, e.a);
    assert Alone(zk, srv);
    assert Alone(zk', srv');
    forall s | 0 <= s < |sys.servers| && s != e.s
      ensures Alone(zk', sys.servers[s])
    {
      assert Alone(zk, sys.servers[s]);
      assert Mutates(zk, srv, e.a).None? ==> zk' == zk;
    }
  }

  /** Where no create is raced and nothing is deleted, every get after a create reads back what was pushed. */
  lemma {:induction false} UnracedGetsBack(cfg: Config<Path>, live: set<Path>, sys: System, es: seq<Event>,
                                           sys': System)
    requires AllAlone(sys) && Run(cfg, live, Calm, sys, es, sys')
    ensures Run(cfg, live, GetsBack, sys, es, sys')
    decreases |es|
  {
    if es != [] {
      hide AllAlone, GetsBack, Possible, Protocol.Next, Calm;
      NextAlone(cfg, live, sys, es[0]);
      UnracedGetsBack(cfg, live, Protocol.Next(cfg, live, sys, es[0]), es[1..], sys');
    }
  }

  /** So coherence holds in all runs in which no create is raced, nothing is deleted and no local add is
      refused but for a node that exists. */
  lemma UnracedIsCoherent(cfg: Config<Path>, live: set<Path>, n: nat, pindex: nat, es: seq<Event>, sys: System)
    requires CollisionFree(cfg, live) && pindex < |cfg.primes|
    requires Run(cfg, live, Smooth, Initial(cfg, n, pindex), es, sys)
    ensures Coherent(cfg, live, sys)
  {
    var first := Initial(cfg, n, pindex);
    RunWeaken(cfg, live, Smooth, Calm, first, es, sys);
    UnracedGetsBack(cfg, live, first, es, sys);
    RunBoth(cfg, live, Smooth, GetsBack, ReadsBack, first, es, sys);
    SkippingNeverLeavesAStaleCopy(cfg, live, n, pindex, es, sys);
  }
}
