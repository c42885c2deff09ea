/** Deletions: which of those that clients ask for reach the store. */
module Deletions {
  import opened Sequences
  import opened Table
  import opened TableLemmas
  import opened Protocol
  import opened Losses
  import opened Runs

  /** The step deletes a local node without replicating that: on a deletion event, or because a fetched
      node is there already and is replaced. */
  predicate Lowers(a: Action) {
    a.DeleteEvent? || a.Replace?
  }

  /** The replication flag is up after a step exactly if it was up and the step does not lower it. */
  lemma FlagStep(cfg: Config<Path>, zk: Zk, srv: Server, a: Action)
    requires Runnable(cfg, srv) && Enabled(srv, a)
    ensures Step(cfg, zk, srv, a).1.replicate <==> srv.replicate && !Lowers(a)
  {
    hide Insert, CheckAge;
  }

  /** No event lowers the flag of server s. */
  predicate NeverLowered(es: seq<Event>, s: nat) {
    forall e :: e in es && e.s == s ==> !Lowers(e.a)
  }

  /** At the end of a run a server's flag is up exactly if it was up at the beginning and no event of the
      run lowered it. */
  lemma {:induction false} FlagIffNeverLowered(cfg: Config<Path>, live: set<Path>, ok: (System, Event) -> bool,
                                               sys: System, es: seq<Event>, sys': System, s: nat)
    requires Run(cfg, live, ok, sys, es, sys') && s < |sys.servers|
    ensures |sys'.servers| == |sys.servers|
    ensures sys'.servers[s].replicate <==> sys.servers[s].replicate && NeverLowered(es, s)
    decreases |es|
  {
    if es != [] {
      hide Step;
      FlagStep(cfg, sys.zk, sys.servers[es[0].s], es[0].a);
      FlagIffNeverLowered(cfg, live, ok, Protocol.Next(cfg, live, sys, es[0]), es[1..], sys', s);
      assert forall e :: e in es <==> e == es[0] || e in es[1..];
    }
  }

  /** In every run, a deletion that a client asks an idle server for removes the znode, if there is one,
      exactly if no event so far has lowered this server's flag. With the flag up the local node goes
      along with the znode, or stays if there is none; with the flag down it goes alone. */
  lemma DeletionReachesStoreIff(cfg: Config<Path>, live: set<Path>, ok: (System, Event) -> bool, n: nat, pindex: nat,
                                es: seq<Event>, sys: System, s: nat, p: Path)
    requires pindex < |cfg.primes| && s < n && Run(cfg, live, ok, Initial(cfg, n, pindex), es, sys)
    ensures |sys.servers| == n
    ensures var srv, up := sys.servers[s], NeverLowered(es, s);
            srv.pc.Idle? && Runnable(cfg, srv) ==>
              var (zk', srv') := Step(cfg, sys.zk, srv, ClientDelete(p));
              && (p in sys.zk.store ==> (p !in zk'.store <==> up))
              && (p !in srv'.local <==> p !in srv.local || !up || p in sys.zk.store)
  {
    hide NeverLowered;
    FlagIffNeverLowered(cfg, live, ok, Initial(cfg, n, pindex), es, sys, s);
  }

  // ---------- The run that fails ----------

  /** A server adds a node that another one has created, fetches it, and so replaces its own: after that a
      deletion that its client asks for leaves the znode where it is, and no fetch brings the node back
      until the znode changes. Only the last event is a deletion. */
  lemma DeletionStaysLocal(cfg: Config<Path>, live: set<Path>, pindex: nat, p: Path)
    returns (es: seq<Event>, sys: System)
    requires cfg.Sound() && pindex < |cfg.primes| && p in live && cfg.eq(p, p)
    ensures Run(cfg, live, Clean(cfg), Initial(cfg, 2, pindex), es, sys) && |sys.servers| == 2
    ensures var srv := sys.servers[1];
            && Runnable(cfg, srv) && srv.pc.Idle? && p in srv.local && p in sys.zk.store
            && var (zk', srv') := Step(cfg, sys.zk, srv, ClientDelete(p));
               && zk' == sys.zk && p !in srv'.local && Runnable(cfg, srv')
               && CheckAge(cfg, srv'.table, p, zk'.store[p].mzxid) == 0
  {
    hide Run, Insert, CheckAge, Search, Valid, TablesValid;
    var first := Initial(cfg, 2, pindex);
    InitialIsValid(cfg, 2, pindex);
    RunNothing(cfg, live, Clean(cfg), first);
    es, sys := CreateNode(cfg, live, Clean(cfg), first, [], first, 0, p, "");
    TablesRunnable(cfg, sys, 1);
    assert sys.servers[1] == first.servers[1] && sys.zk.store[p] == Znode("", 1);
    InsertIsFound(cfg, sys.servers[1].table, p, 1, true);
    es, sys := Replaced(cfg, live, first, es, sys, p);
  }

  lemma Replaced(cfg: Config<Path>, live: set<Path>, first: System, es: seq<Event>, sys: System, p: Path)
    returns (es': seq<Event>, sys': System)
    requires Run(cfg, live, Clean(cfg), first, es, sys) && |sys.servers| == 2 && NoneCreating(sys)
    requires sys.servers[1].pc.Idle? && p in live
    requires sys.zk.store == map[p := Znode("", 1)] && p !in sys.servers[1].local
    requires Runnable(cfg, sys.servers[1]) && CheckAge(cfg, sys.servers[1].table, p, 1) == -1
    requires var t := Insert(cfg, sys.servers[1].table, p, 1, true, true);
             Valid(cfg, t) && Search(cfg, t, p) == Some(1)
    ensures Run(cfg, live, Clean(cfg), first, es', sys')
    ensures sys'.zk == sys.zk && |sys'.servers| == 2
    ensures sys'.servers[1] == Server(Insert(cfg, sys.servers[1].table, p, 1, true, true),
                                      sys.servers[1].local[p := ""], false, Idle)
    ensures Runnable(cfg, sys'.servers[1]) && CheckAge(cfg, sys'.servers[1].table, p, 1) == 0
  {
    hide Run, Insert, Search, CheckAge;
    es', sys' := FetchedOver(cfg, live, first, es, sys, p);
    FoundIsFresh(cfg, sys'.servers[1], p, 1);
    es', sys' := Advance(cfg, live, Clean(cfg), first, es', sys', Event(1, Replace(true)));
    es', sys' := Advance(cfg, live, Clean(cfg), first, es', sys', Event(1, Intercept));
  }

  /** The node that the server has added itself is fetched, and found to exist. */
  lemma FetchedOver(cfg: Config<Path>, live: set<Path>, first: System, es: seq<Event>, sys: System, p: Path)
    returns (es': seq<Event>, sys': System)
    requires Run(cfg, live, Clean(cfg), first, es, sys) && |sys.servers| == 2 && NoneCreating(sys)
    requires sys.servers[1].pc.Idle? && p in live
    requires sys.zk.store == map[p := Znode("", 1)] && p !in sys.servers[1].local
    requires Runnable(cfg, sys.servers[1]) && CheckAge(cfg, sys.servers[1].table, p, 1) == -1
    requires var t := Insert(cfg, sys.servers[1].table, p, 1, true, true);
             Valid(cfg, t) && Search(cfg, t, p) == Some(1)
    ensures Run(cfg, live, Clean(cfg), first, es', sys')
    ensures sys'.zk == sys.zk && |sys'.servers| == 2 && Runnable(cfg, sys'.servers[1])
    ensures var srv := sys.servers[1];
            sys'.servers[1] == Server(Insert(cfg, srv.table, p, 1, true, true), srv.local[p := ""], srv.replicate,
                                      Replacing(p, "", Apply))
  {
    hide Run, Insert, Search;
    es', sys' := AddedLate(cfg, live, first, es, sys, p);
    es', sys' := Advance(cfg, live, Clean(cfg), first, es', sys', Event(1, Fetch(p, true, true, true)));
    es', sys' := Advance(cfg, live, Clean(cfg), first, es', sys', Event(1, Intercept));
  }

  /** The add of a node that the store has already is not replicated. */
  lemma AddedLate(cfg: Config<Path>, live: set<Path>, first: System, es: seq<Event>, sys: System, p: Path)
    returns (es': seq<Event>, sys': System)
    requires Run(cfg, live, Clean(cfg), first, es, sys) && |sys.servers| == 2 && NoneCreating(sys)
    requires sys.servers[1].pc.Idle? && p in live
    requires sys.zk.store == map[p := Znode("", 1)] && p !in sys.servers[1].local
    requires Runnable(cfg, sys.servers[1]) && CheckAge(cfg, sys.servers[1].table, p, 1) == -1
    ensures Run(cfg, live, Clean(cfg), first, es', sys')
    ensures sys' == System(sys.zk, sys.servers[1 := sys.servers[1].(local := sys.servers[1].local[p := ""])])
  {
    hide Run, CheckAge;
    es', sys' := Advance(cfg, live, Clean(cfg), first, es, sys, Event(1, ClientAdd(p, "", true)));
    es', sys' := Advance(cfg, live, Clean(cfg), first, es', sys', Event(1, Intercept));
    assert sys'.servers == sys.servers[1 := sys.servers[1].(local := sys.servers[1].local[p := ""])];
  }

  /** Why deletions are excluded from coherence: with the flag down, a client's deletion removes the copy
      and keeps the record, so the node, still in the store, is skipped by every fetch until it changes. */
  lemma DeletedCopyIsNotFetchedAgain(cfg: Config<Path>, zk: Zk, srv: Server, p: Path, tm: bool, em: bool, admits: bool)
    requires Runnable(cfg, srv) && srv.pc.Idle? && !srv.replicate
    requires p in zk.store && CheckAge(cfg, srv.table, p, zk.store[p].mzxid) == 0
    ensures var (zk', srv') := Step(cfg, zk, srv, ClientDelete(p));
            && zk' == zk && p !in srv'.local
            && Runnable(cfg, srv') && Enabled(srv', Fetch(p, tm, em, admits))
            && Step(cfg, zk, srv', Fetch(p, tm, em, admits)) == (zk, srv')
  {
    hide CheckAge;
  }

  // ---------- Deletions that are learned of late ----------

  /** A znode is created and deleted, and created again; a server fetches the new one, and then handles the
      event of the deletion: it misses the node. */
  lemma LateEventRemovesTheCopy(cfg: Config<Path>, live: set<Path>, pindex: nat, p: Path)
    returns (es: seq<Event>, sys: System)
    requires cfg.Sound() && pindex < |cfg.primes| && p in live && cfg.eq(p, p)
    ensures Run(cfg, live, ReadsLogged, Initial(cfg, 2, pindex), es, sys)
    ensures |sys.servers| == 2 && Missed(cfg, sys, 1, p)
  {
    hide Run, Insert, CheckAge, Search, Valid, TablesValid, Keeps;
    var first := Initial(cfg, 2, pindex);
    Begin(cfg, live, ReadsLogged, 2, pindex);
    KeepsReadsLogged(cfg);
    es, sys := CreatedAndDeleted(cfg, live, first, [], first, p);
    es, sys := CreateNode(cfg, live, ReadsLogged, first, es, sys, 0, p, "");
    assert sys.servers[1] == first.servers[1] && sys.zk.store[p] == Znode("", 3);
    TablesRunnable(cfg, sys, 1);
    TableOf(cfg, sys, 1);
    InsertIsFound(cfg, sys.servers[1].table, p, 3, true);
    es, sys := FetchNode(cfg, live, ReadsLogged, first, es, sys, 1, p);
    TablesRunnable(cfg, sys, 1);
    FoundIsFresh(cfg, sys.servers[1], p, 3);
    es, sys := Advance(cfg, live, ReadsLogged, first, es, sys, Event(1, DeleteEvent(p)));
  }

  /** A client of server 0 adds a node and deletes it again. */
  lemma CreatedAndDeleted(cfg: Config<Path>, live: set<Path>, first: System, es: seq<Event>, sys: System, p: Path)
    returns (es': seq<Event>, sys': System)
    requires Run(cfg, live, ReadsLogged, first, es, sys) && NoneCreating(sys) && TablesValid(cfg, sys)
    requires |sys.servers| == 2 && sys.servers[0].pc.Idle? && sys.servers[0].replicate
    requires p in live && p !in sys.zk.store && p !in sys.servers[0].local
    ensures Run(cfg, live, ReadsLogged, first, es', sys') && NoneCreating(sys') && TablesValid(cfg, sys')
    ensures |sys'.servers| == 2 && sys'.servers[0].pc.Idle? && sys'.servers[0].replicate
    ensures sys'.servers[1] == sys.servers[1] && sys'.zk.log == sys.zk.log + [Put(p, "", Client), Del(p)]
    ensures p !in sys'.zk.store && p !in sys'.servers[0].local
  {
    hide Run, Insert, CheckAge, Valid, Keeps;
    KeepsReadsLogged(cfg);
    es', sys' := CreateNode(cfg, live, ReadsLogged, first, es, sys, 0, p, "");
    es', sys' := Deleted(cfg, live, first, es', sys', p);
  }

  /** A server that has not learned of a deletion yet is asked to add the node: locally the add fails, but
      its data is pushed, here by a set, because the znode has been created again meanwhile. */
  lemma StaleCopyIsRecorded(cfg: Config<Path>, live: set<Path>, pindex: nat, p: Path, a: Data, b: Data)
    returns (es: seq<Event>, sys: System)
    requires cfg.Sound() && pindex < |cfg.primes| && p in live && cfg.eq(p, p) && a != b
    ensures Run(cfg, live, ReadsLogged, Initial(cfg, 2, pindex), es, sys)
    ensures |sys.servers| == 2 && sys.servers[1].pc.Idle? && p in sys.zk.store && Runnable(cfg, sys.servers[1])
    ensures CheckAge(cfg, sys.servers[1].table, p, sys.zk.store[p].mzxid) == 0
    ensures sys.zk.store[p].data == b && p in sys.servers[1].local && sys.servers[1].local[p] == a
  {
    hide Run, Insert, CheckAge, Search, Valid, TablesValid, Keeps;
    var first := Initial(cfg, 2, pindex);
    Begin(cfg, live, ReadsLogged, 2, pindex);
    KeepsReadsLogged(cfg);
    es, sys := CreateNode(cfg, live, ReadsLogged, first, [], first, 0, p, a);
    assert sys.servers[1] == first.servers[1];
    TablesRunnable(cfg, sys, 1);
    es, sys := FetchNode(cfg, live, ReadsLogged, first, es, sys, 1, p);
    es, sys := Deleted(cfg, live, first, es, sys, p);
    es, sys := AddedOverStale(cfg, live, first, es, sys, p, a, b);
  }

  lemma Deleted(cfg: Config<Path>, live: set<Path>, first: System, es: seq<Event>, sys: System, p: Path)
    returns (es': seq<Event>, sys': System)
    requires Run(cfg, live, ReadsLogged, first, es, sys) && NoneCreating(sys) && TablesValid(cfg, sys)
    requires |sys.servers| == 2 && sys.servers[0].pc.Idle? && sys.servers[0].replicate
    requires p in live && p in sys.zk.store
    ensures Run(cfg, live, ReadsLogged, first, es', sys') && NoneCreating(sys') && TablesValid(cfg, sys')
    ensures sys' == System(sys.zk.Delete(p), [sys.servers[0].(local := sys.servers[0].local - {p}), sys.servers[1]])
  {
    hide Run, Insert, CheckAge, Valid;
    TablesRunnable(cfg, sys, 0);
    es', sys' := Advance(cfg, live, ReadsLogged, first, es, sys, Event(0, ClientDelete(p)));
  }

  lemma AddedOverStale(cfg: Config<Path>, live: set<Path>, first: System, es: seq<Event>, sys: System, p: Path,
                       a: Data, b: Data)
    returns (es': seq<Event>, sys': System)
    requires Run(cfg, live, ReadsLogged, first, es, sys) && NoneCreating(sys) && TablesValid(cfg, sys)
    requires |sys.servers| == 2 && sys.servers[0].pc.Idle? && sys.servers[1].pc.Idle?
    requires p in live && cfg.eq(p, p) && p !in sys.zk.store && p !in sys.servers[0].local
    requires p in sys.servers[1].local && sys.servers[1].local[p] == a
    ensures Run(cfg, live, ReadsLogged, first, es', sys')
    ensures |sys'.servers| == 2 && sys'.servers[1].pc.Idle? && p in sys'.zk.store && Runnable(cfg, sys'.servers[1])
    ensures CheckAge(cfg, sys'.servers[1].table, p, sys'.zk.store[p].mzxid) == 0
    ensures sys'.zk.store[p].data == b && p in sys'.servers[1].local && sys'.servers[1].local[p] == a
  {
    hide Run, Insert, CheckAge, Search, Valid, Keeps;
    KeepsReadsLogged(cfg);
    TablesRunnable(cfg, sys, 1);
    es', sys' := Advance(cfg, live, ReadsLogged, first, es, sys, Event(1, ClientAdd(p, b, true)));
    es', sys' := Advance(cfg, live, ReadsLogged, first, es', sys', Event(1, Intercept));
    es', sys' := CreateNode(cfg, live, ReadsLogged, first, es', sys', 0, p, a);
    es', sys' := SetOver(cfg, live, first, es', sys', p, b);
  }

  lemma SetOver(cfg: Config<Path>, live: set<Path>, first: System, es: seq<Event>, sys: System, p: Path, b: Data)
    returns (es': seq<Event>, sys': System)
    requires Run(cfg, live, ReadsLogged, first, es, sys) && TablesValid(cfg, sys) && |sys.servers| == 2
    requires sys.servers[1].pc == Push(p, b, Exists, Client, Done) && p in sys.zk.store && p in live && cfg.eq(p, p)
    ensures Run(cfg, live, ReadsLogged, first, es', sys')
    ensures |sys'.servers| == 2 && sys'.servers[1].pc.Idle? && p in sys'.zk.store && Runnable(cfg, sys'.servers[1])
    ensures CheckAge(cfg, sys'.servers[1].table, p, sys'.zk.store[p].mzxid) == 0
    ensures sys'.zk.store[p].data == b && sys'.servers[1].local == sys.servers[1].local
  {
    hide Run, Insert, CheckAge, Search, Valid;
    TableOf(cfg, sys, 1);
    TablesRunnable(cfg, sys, 1);
    var v := |sys.zk.log| + 1;
    InsertIsFound(cfg, sys.servers[1].table, p, v, true);
    ValidIsRunnable(cfg, sys.servers[1].(table := Insert(cfg, sys.servers[1].table, p, v, true, true)));
    es', sys' := Advance(cfg, live, ReadsLogged, first, es, sys, Event(1, PushExists));
    es', sys' := Advance(cfg, live, ReadsLogged, first, es', sys', Event(1, PushSet(true, true)));
    FoundIsFresh(cfg, sys'.servers[1], p, v);
  }
}
