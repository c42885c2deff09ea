/** Building runs of the protocol event by event. */
module Runs {
  import opened Sequences
  import opened Table
  import opened TableLemmas
  import opened Protocol
  import opened Losses

  lemma {:induction false} RunExtend(cfg: Config<Path>, live: set<Path>, ok: (System, Event) -> bool, sys: System,
                                     es: seq<Event>, sys': System, e: Event)
    requires Run(cfg, live, ok, sys, es, sys') && Possible(cfg, live, sys', e) && ok(sys', e)
    ensures Run(cfg, live, ok, sys, es + [e], Protocol.Next(cfg, live, sys', e))
    decreases |es|
  {
    if es == [] {
      assert es + [e] == [e];
      assert Run(cfg, live, ok, Protocol.Next(cfg, live, sys', e), [e][1..], Protocol.Next(cfg, live, sys', e));
    } else {
      assert (es + [e])[1..] == es[1..] + [e];
      RunExtend(cfg, live, ok, Protocol.Next(cfg, live, sys, es[0]), es[1..], sys', e);
    }
  }

  lemma RunNothing(cfg: Config<Path>, live: set<Path>, ok: (System, Event) -> bool, sys: System)
    ensures Run(cfg, live, ok, sys, [], sys)
  {
  }

  lemma Advance(cfg: Config<Path>, live: set<Path>, ok: (System, Event) -> bool, first: System, es: seq<Event>,
                sys: System, e: Event)
    returns (es': seq<Event>, sys': System)
    requires Run(cfg, live, ok, first, es, sys) && Possible(cfg, live, sys, e) && ok(sys, e)
    ensures Run(cfg, live, ok, first, es', sys') && es' == es + [e] && sys' == Protocol.Next(cfg, live, sys, e)
  {
    RunExtend(cfg, live, ok, first, es, sys, e);
    es', sys' := es + [e], Protocol.Next(cfg, live, sys, e);
  }

  /** No create is raced, nothing is deleted, no local add is refused but for a node that exists, and no step
      loses coherence. */
  function Clean(cfg: Config<Path>): (System, Event) -> bool {
    (sys, e) => Smooth(sys, e) && Keeps(cfg, sys, e)
  }

  /** A run whose events all satisfy one condition satisfies every weaker one. */
  lemma {:induction false} RunWeaken(cfg: Config<Path>, live: set<Path>, ok: (System, Event) -> bool,
                                     weaker: (System, Event) -> bool, sys: System, es: seq<Event>, sys': System)
    requires Run(cfg, live, ok, sys, es, sys') && forall s, e :: ok(s, e) ==> weaker(s, e)
    ensures Run(cfg, live, weaker, sys, es, sys')
    decreases |es|
  {
    if es != [] {
      RunWeaken(cfg, live, ok, weaker, Protocol.Next(cfg, live, sys, es[0]), es[1..], sys');
    }
  }

  lemma {:induction false} RunBoth(cfg: Config<Path>, live: set<Path>, ok1: (System, Event) -> bool,
                                   ok2: (System, Event) -> bool, both: (System, Event) -> bool, sys: System,
                                   es: seq<Event>, sys': System)
    requires Run(cfg, live, ok1, sys, es, sys') && Run(cfg, live, ok2, sys, es, sys')
    requires forall s, e :: ok1(s, e) && ok2(s, e) ==> both(s, e)
    ensures Run(cfg, live, both, sys, es, sys')
    decreases |es|
  {
    if es != [] {
      RunBoth(cfg, live, ok1, ok2, both, Protocol.Next(cfg, live, sys, es[0]), es[1..], sys');
    }
  }

  /** No server is creating a znode. */
  predicate NoneCreating(sys: System) {
    forall s :: 0 <= s < |sys.servers| && sys.servers[s].pc.Push? ==>
      sys.servers[s].pc.stage.Exists? || sys.servers[s].pc.stage.Set?
  }

  ghost predicate TablesValid(cfg: Config<Path>, sys: System) {
    forall s :: 0 <= s < |sys.servers| ==> Valid(cfg, sys.servers[s].table)
  }

  lemma ValidIsRunnable(cfg: Config<Path>, srv: Server)
    requires Valid(cfg, srv.table)
    ensures Runnable(cfg, srv)
  {
  }

  lemma TablesRunnable(cfg: Config<Path>, sys: System, s: nat)
    requires TablesValid(cfg, sys) && s < |sys.servers|
    ensures Runnable(cfg, sys.servers[s])
  {
  }

  /** The state after server s has recorded the current version of p, and holds d for it. */
  function Holding(cfg: Config<Path>, sys: System, zk: Zk, s: nat, p: Path, d: Data): System
    requires s < |sys.servers| && Runnable(cfg, sys.servers[s]) && p in zk.store
  {
    var srv := sys.servers[s];
    System(zk, sys.servers[s := srv.(table := Insert(cfg, srv.table, p, zk.store[p].mzxid, true, true),
                                     local := srv.local[p := d])])
  }

  lemma HoldingIsValid(cfg: Config<Path>, sys: System, zk: Zk, s: nat, p: Path, d: Data)
    requires TablesValid(cfg, sys) && s < |sys.servers| && Runnable(cfg, sys.servers[s]) && p in zk.store
    ensures TablesValid(cfg, Holding(cfg, sys, zk, s, p, d))
  {
    InsertCorrect(cfg, sys.servers[s].table, p, zk.store[p].mzxid, true, true);
  }

  lemma CleanStep(cfg: Config<Path>, live: set<Path>, ok: (System, Event) -> bool, first: System, es: seq<Event>,
                  sys: System, e: Event)
    returns (es': seq<Event>, sys': System)
    requires forall s, e :: Clean(cfg)(s, e) ==> ok(s, e)
    requires Run(cfg, live, ok, first, es, sys) && Possible(cfg, live, sys, e) && Smooth(sys, e) && Keeps(cfg, sys, e)
    ensures Run(cfg, live, ok, first, es', sys') && es' == es + [e] && sys' == Protocol.Next(cfg, live, sys, e)
  {
    assert Clean(cfg)(sys, e);
    es', sys' := Advance(cfg, live, ok, first, es, sys, e);
  }

  /** A client of an idle server s adds a node that neither the server nor the store has, and nobody
      interferes. */
  lemma CreateNode(cfg: Config<Path>, live: set<Path>, ok: (System, Event) -> bool, first: System, es: seq<Event>,
                   sys: System, s: nat, p: Path, d: Data)
    returns (es': seq<Event>, sys': System)
    requires forall s, e :: Clean(cfg)(s, e) ==> ok(s, e)
    requires Run(cfg, live, ok, first, es, sys) && NoneCreating(sys) && TablesValid(cfg, sys)
    requires s < |sys.servers| && sys.servers[s].pc.Idle?
    requires p in live && p !in sys.zk.store && p !in sys.servers[s].local
    ensures Run(cfg, live, ok, first, es', sys') && TablesValid(cfg, sys') && Runnable(cfg, sys.servers[s])
    ensures sys' == Holding(cfg, sys, sys.zk.Write(p, d, Client), s, p, d)
  {
    hide Run, Insert, CheckAge, Valid;
    ValidIsRunnable(cfg, sys.servers[s]);
    es', sys' := CleanStep(cfg, live, ok, first, es, sys, Event(s, ClientAdd(p, d, true)));
    es', sys' := CleanStep(cfg, live, ok, first, es', sys', Event(s, Intercept));
    es', sys' := CleanStep(cfg, live, ok, first, es', sys', Event(s, PushExists));
    es', sys' := Created(cfg, live, ok, first, es', sys', sys, s, p, d);
    HoldingIsValid(cfg, sys, sys.zk.Write(p, d, Client), s, p, d);
  }

  lemma Created(cfg: Config<Path>, live: set<Path>, ok: (System, Event) -> bool, first: System, es: seq<Event>,
                sys: System, sys0: System, s: nat, p: Path, d: Data)
    returns (es': seq<Event>, sys': System)
    requires forall s, e :: Clean(cfg)(s, e) ==> ok(s, e)
    requires Run(cfg, live, ok, first, es, sys) && NoneCreating(sys0)
    requires s < |sys0.servers| && sys0.servers[s].pc.Idle? && Runnable(cfg, sys0.servers[s]) && p !in sys0.zk.store
    requires var srv := sys0.servers[s];
             sys == System(sys0.zk, sys0.servers[s := srv.(local := srv.local[p := d],
                                                           pc := Push(p, d, Create, Client, Done))])
    ensures Run(cfg, live, ok, first, es', sys')
    ensures sys' == Holding(cfg, sys0, sys0.zk.Write(p, d, Client), s, p, d)
  {
    hide Run, Insert, CheckAge;
    es', sys' := CleanStep(cfg, live, ok, first, es, sys, Event(s, PushCreate));
    es', sys' := CleanStep(cfg, live, ok, first, es', sys', Event(s, PushGet(0, true, true)));
    assert sys'.servers == Holding(cfg, sys0, sys0.zk.Write(p, d, Client), s, p, d).servers;
  }

  /** An idle server s fetches a node that it does not have and has not recorded. */
  lemma FetchNode(cfg: Config<Path>, live: set<Path>, ok: (System, Event) -> bool, first: System, es: seq<Event>,
                  sys: System, s: nat, p: Path)
    returns (es': seq<Event>, sys': System)
    requires forall s, e :: Clean(cfg)(s, e) ==> ok(s, e)
    requires Run(cfg, live, ok, first, es, sys) && TablesValid(cfg, sys)
    requires s < |sys.servers| && sys.servers[s].pc.Idle? && Runnable(cfg, sys.servers[s]) && cfg.eq(p, p)
    requires p in live && p in sys.zk.store && p !in sys.servers[s].local
    requires CheckAge(cfg, sys.servers[s].table, p, sys.zk.store[p].mzxid) == -1
    ensures Run(cfg, live, ok, first, es', sys') && TablesValid(cfg, sys')
    ensures sys' == Holding(cfg, sys, sys.zk, s, p, sys.zk.store[p].data)
  {
    hide Run, Insert, Valid, Search;
    var srv := sys.servers[s];
    InsertIsFound(cfg, srv.table, p, sys.zk.store[p].mzxid, true);
    ValidIsRunnable(cfg, srv.(table := Insert(cfg, srv.table, p, sys.zk.store[p].mzxid, true, true)));
    es', sys' := CleanStep(cfg, live, ok, first, es, sys, Event(s, Fetch(p, true, true, true)));
    es', sys' := CleanStep(cfg, live, ok, first, es', sys', Event(s, Intercept));
    HoldingIsValid(cfg, sys, sys.zk, s, p, sys.zk.store[p].data);
    assert sys'.servers == Holding(cfg, sys, sys.zk, s, p, sys.zk.store[p].data).servers;
  }

  lemma InitialIsValid(cfg: Config<Path>, n: nat, pindex: nat)
    requires cfg.Sound() && pindex < |cfg.primes|
    ensures NoneCreating(Initial(cfg, n, pindex)) && TablesValid(cfg, Initial(cfg, n, pindex))
    ensures forall p, m :: CheckAge(cfg, Table.Create<Path, nat>(cfg, pindex), p, m) == -1
  {
    CreateCorrect<Path, nat>(cfg, pindex);
    forall p, m: nat
      ensures CheckAge(cfg, Table.Create<Path, nat>(cfg, pindex), p, m) == -1
    {
      SearchCorrect(cfg, Table.Create<Path, nat>(cfg, pindex), p);
    }
  }

  /** The state of a system in which no server has done anything. */
  lemma Begin(cfg: Config<Path>, live: set<Path>, ok: (System, Event) -> bool, n: nat, pindex: nat)
    requires cfg.Sound() && pindex < |cfg.primes|
    ensures var first := Initial(cfg, n, pindex);
            && Run(cfg, live, ok, first, [], first) && NoneCreating(first) && TablesValid(cfg, first)
            && forall p, m :: CheckAge(cfg, Table.Create<Path, nat>(cfg, pindex), p, m) == -1
  {
    InitialIsValid(cfg, n, pindex);
  }

  lemma TableOf(cfg: Config<Path>, sys: System, s: nat)
    requires TablesValid(cfg, sys) && s < |sys.servers|
    ensures Valid(cfg, sys.servers[s].table)
  {
  }

  lemma FoundIsFresh(cfg: Config<Path>, srv: Server, p: Path, v: nat)
    requires |srv.table.buckets| > 0 && Search(cfg, srv.table, p) == Some(v)
    ensures CheckAge(cfg, srv.table, p, v) == 0
  {
  }

  /** Server s is idle, has recorded the current version of p, and does not hold p. */
  ghost predicate Missed(cfg: Config<Path>, sys: System, s: nat, p: Path) {
    && s < |sys.servers| && sys.servers[s].pc.Idle? && p in sys.zk.store && p !in sys.servers[s].local
    && Runnable(cfg, sys.servers[s]) && CheckAge(cfg, sys.servers[s].table, p, sys.zk.store[p].mzxid) == 0
  }

  /** A node that is missed is skipped by every fetch. */
  lemma MissedIsSkipped(cfg: Config<Path>, sys: System, s: nat, p: Path, tm: bool, em: bool, admits: bool)
    requires Missed(cfg, sys, s, p)
    ensures Step(cfg, sys.zk, sys.servers[s], Fetch(p, tm, em, admits)) == (sys.zk, sys.servers[s])
  {
    hide CheckAge;
  }

  lemma KeepsReadsLogged(cfg: Config<Path>)
    ensures forall sys, e :: Lossless(cfg)(sys, e) ==> ReadsLogged(sys, e)
  {
  }
}
