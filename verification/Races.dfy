/** Runs in which coherence ends: a raced create, adds that the library refuses, and two paths with one hash;
    and what repeated recording of versions does to the version that is found. */
module Races {
  import opened Sequences
  import opened Table
  import opened TableLemmas
  import opened Protocol
  import opened Runs
  import opened Versions
  import opened Coherence
  import opened Losses
  import opened ReadingBack

  /** Two servers add the same node with different data. Both are told that the znode does not exist;
      the first creates it, the second fails to, reads the first one's version and records it: from
      then on, until the znode changes again, it skips every fetch of the node and keeps its own data.
      Nothing is deleted, no add is refused, and only the last get does not read back what was pushed. */
  lemma RacedCreateDiverges(cfg: Config<Path>, p: Path, a: Data, b: Data) returns (es: seq<Event>, sys: System)
    requires CollisionFree(cfg, {p}) && a != b
    ensures Run(cfg, {p}, Admitting, Initial(cfg, 2, 0), es, sys)
    ensures |sys.servers| == 2 && sys.servers[0].pc.Idle? && sys.servers[1].pc.Idle? && p in sys.zk.store
    ensures Runnable(cfg, sys.servers[1]) && CheckAge(cfg, sys.servers[1].table, p, sys.zk.store[p].mzxid) == 0
    ensures p in sys.servers[1].local && sys.servers[1].local[p] != sys.zk.store[p].data
  {
    hide Run, Valid, Insert, Search, Table.Create, Initial;
    var t := Table.Create<Path, nat>(cfg, 0);
    CreateCorrect<Path, nat>(cfg, 0);
    InsertIsFound(cfg, t, p, 1, true);
    ValidIsRunnable(cfg, Server(t, map[], true, Idle));
    es, sys := BothAdd(cfg, p, a, b, t);
    es, sys := BothCreate(cfg, p, a, b, t, es, sys);
    es, sys := BothGet(cfg, p, a, b, t, es, sys);
    ValidIsRunnable(cfg, sys.servers[1]);
  }

  lemma BothAdd(cfg: Config<Path>, p: Path, a: Data, b: Data, t: State<Path, nat>) returns (es: seq<Event>, sys: System)
    requires CollisionFree(cfg, {p}) && t == Table.Create<Path, nat>(cfg, 0)
    ensures Run(cfg, {p}, Admitting, Initial(cfg, 2, 0), es, sys)
    ensures sys == System(Zk(map[], []), [Server(t, map[p := a], true, Added(p, a, Client, Done)),
                                          Server(t, map[p := b], true, Added(p, b, Client, Done))])
  {
    hide Run, Table.Create, CheckAge;
    var live, first := {p}, Initial(cfg, 2, 0);
    es, sys := [], first;
    assert Run(cfg, live, Admitting, first, [], first) by { RunNothing(cfg, live, Admitting, first); }
    assert Runnable(cfg, sys.servers[0]) by { CreateCorrect<Path, nat>(cfg, 0); }
    es, sys := Advance(cfg, live, Admitting, first, es, sys, Event(0, ClientAdd(p, a, true)));
    es, sys := Advance(cfg, live, Admitting, first, es, sys, Event(1, ClientAdd(p, b, true)));
  }

  lemma BothAsk(cfg: Config<Path>, p: Path, a: Data, b: Data, t: State<Path, nat>, es: seq<Event>, sys: System)
    returns (es': seq<Event>, sys': System)
    requires cfg.Sound() && t.primeindex < |cfg.primes| && |t.buckets| > 0
    requires Run(cfg, {p}, Admitting, Initial(cfg, 2, 0), es, sys)
    requires sys == System(Zk(map[], []), [Server(t, map[p := a], true, Added(p, a, Client, Done)),
                                           Server(t, map[p := b], true, Added(p, b, Client, Done))])
    ensures Run(cfg, {p}, Admitting, Initial(cfg, 2, 0), es', sys')
    ensures sys' == System(Zk(map[], []), [Server(t, map[p := a], true, Push(p, a, Create, Client, Done)),
                                           Server(t, map[p := b], true, Push(p, b, Create, Client, Done))])
  {
    hide Run, CheckAge, Initial;
    var live, first := {p}, Initial(cfg, 2, 0);
    es', sys' := Advance(cfg, live, Admitting, first, es, sys, Event(0, Intercept));
    es', sys' := Advance(cfg, live, Admitting, first, es', sys', Event(1, Intercept));
    es', sys' := Advance(cfg, live, Admitting, first, es', sys', Event(0, PushExists));
    es', sys' := Advance(cfg, live, Admitting, first, es', sys', Event(1, PushExists));
  }

  lemma BothCreate(cfg: Config<Path>, p: Path, a: Data, b: Data, t: State<Path, nat>, es: seq<Event>, sys: System)
    returns (es': seq<Event>, sys': System)
    requires cfg.Sound() && t.primeindex < |cfg.primes| && |t.buckets| > 0
    requires Run(cfg, {p}, Admitting, Initial(cfg, 2, 0), es, sys)
    requires sys == System(Zk(map[], []), [Server(t, map[p := a], true, Added(p, a, Client, Done)),
                                           Server(t, map[p := b], true, Added(p, b, Client, Done))])
    ensures Run(cfg, {p}, Admitting, Initial(cfg, 2, 0), es', sys')
    ensures sys' == System(Zk(map[p := Znode(a, 1)], [Put(p, a, Client)]),
                           [Server(t, map[p := a], true, Push(p, a, Get, Client, Done)),
                            Server(t, map[p := b], true, Push(p, b, Get, Client, Done))])
  {
    hide Run, CheckAge, Initial;
    var live, first := {p}, Initial(cfg, 2, 0);
    es', sys' := BothAsk(cfg, p, a, b, t, es, sys);
    es', sys' := Advance(cfg, live, Admitting, first, es', sys', Event(0, PushCreate));
    es', sys' := Advance(cfg, live, Admitting, first, es', sys', Event(1, PushCreate));
  }

  lemma BothGet(cfg: Config<Path>, p: Path, a: Data, b: Data, t: State<Path, nat>, es: seq<Event>, sys: System)
    returns (es': seq<Event>, sys': System)
    requires cfg.Sound() && t.primeindex < |cfg.primes| && |t.buckets| > 0
    requires Run(cfg, {p}, Admitting, Initial(cfg, 2, 0), es, sys)
    requires sys == System(Zk(map[p := Znode(a, 1)], [Put(p, a, Client)]),
                           [Server(t, map[p := a], true, Push(p, a, Get, Client, Done)),
                            Server(t, map[p := b], true, Push(p, b, Get, Client, Done))])
    ensures Run(cfg, {p}, Admitting, Initial(cfg, 2, 0), es', sys')
    ensures sys' == System(sys.zk, [Server(Insert(cfg, t, p, 1, true, true), map[p := a], true, Idle),
                                    Server(Insert(cfg, t, p, 1, true, true), map[p := b], true, Idle)])
  {
    hide Run, Initial, Insert, CheckAge;
    var live, first := {p}, Initial(cfg, 2, 0);
    es', sys' := Advance(cfg, live, Admitting, first, es, sys, Event(0, PushGet(0, true, true)));
    es', sys' := Advance(cfg, live, Admitting, first, es', sys', Event(1, PushGet(0, true, true)));
  }

  // ---------- Paths that share a table key ----------

  /** Two live paths that match each other in the table: one server adds both, and a second one that
      fetches the newer first takes the older for fresher than the store and never fetches it. No create
      is raced and nothing is deleted. */
  lemma CollidingRun(cfg: Config<Path>, live: set<Path>, pindex: nat, p: Path, q: Path)
    returns (es: seq<Event>, sys: System)
    requires cfg.Sound() && pindex < |cfg.primes| && p in live && q in live && p != q
    requires cfg.hash(p) == cfg.hash(q) && cfg.eq(p, p) && cfg.eq(q, p)
    ensures Run(cfg, live, Clean(cfg), Initial(cfg, 2, pindex), es, sys)
    ensures |sys.servers| == 2 && sys.servers[1].pc.Idle? && q in sys.zk.store && q !in sys.servers[1].local
    ensures Runnable(cfg, sys.servers[1]) && CheckAge(cfg, sys.servers[1].table, q, sys.zk.store[q].mzxid) == 1
  {
    hide Run, Insert, CheckAge, Search, Valid, TablesValid;
    var first := Initial(cfg, 2, pindex);
    InitialIsValid(cfg, 2, pindex);
    RunNothing(cfg, live, Clean(cfg), first);
    es, sys := CreateNode(cfg, live, Clean(cfg), first, [], first, 0, q, "");
    es, sys := CreateNode(cfg, live, Clean(cfg), first, es, sys, 0, p, "");
    assert sys.servers[1] == first.servers[1] && sys.zk.store[p].mzxid == 2 && sys.zk.store[q].mzxid == 1;
    es, sys := FetchNode(cfg, live, Clean(cfg), first, es, sys, 1, p);
    TablesRunnable(cfg, sys, 1);
    RecordedHides(cfg, first.servers[1].table, p, q, 2, 1);
  }

  /** Once a version has been recorded for one of two matching paths, the age check finds it for the other. */
  lemma RecordedHides(cfg: Config<Path>, t: State<Path, nat>, p: Path, q: Path, mzxid: nat, current: nat)
    requires Valid(cfg, t) && cfg.hash(p) == cfg.hash(q) && cfg.eq(q, p) && current < mzxid
    ensures |Insert(cfg, t, p, mzxid, true, true).buckets| > 0
    ensures CheckAge(cfg, Insert(cfg, t, p, mzxid, true, true), q, current) == 1
  {
    hide Insert, Search, Entries, Placed, Hashed;
    InsertCorrect(cfg, t, p, mzxid, true, true);
    SearchCorrect(cfg, Insert(cfg, t, p, mzxid, true, true), q);
  }

  /** An idle server that has recorded neither of two matching paths, both of them in the store, and does not
      hold the newer one: if it fetches the newer one, it skips the other from then on, whether it holds it
      or not, as older than what it has recorded. */
  lemma CollisionHidesNode(cfg: Config<Path>, zk: Zk, srv: Server, p: Path, q: Path, admits: bool)
    requires cfg.hash(p) == cfg.hash(q) && cfg.eq(p, p) && cfg.eq(q, p)
    requires Valid(cfg, srv.table) && srv.pc.Idle? && p !in srv.local
    requires p in zk.store && q in zk.store && zk.store[q].mzxid < zk.store[p].mzxid
    requires CheckAge(cfg, srv.table, p, zk.store[p].mzxid) == -1
    ensures var fetched := Step(cfg, zk, srv, Fetch(p, true, true, true)).1;
            && Runnable(cfg, fetched) && Enabled(fetched, Intercept)
            && var applied := Step(cfg, zk, fetched, Intercept).1;
               && Runnable(cfg, applied) && Enabled(applied, Fetch(q, true, true, admits))
               && applied.local == srv.local[p := zk.store[p].data]
               && Step(cfg, zk, applied, Fetch(q, true, true, admits)) == (zk, applied)
  {
    hide Insert, Search, Placed, Hashed;
    InsertCorrect(cfg, srv.table, p, zk.store[p].mzxid, true, true);
    InsertIsFound(cfg, srv.table, p, zk.store[p].mzxid, true);
    RecordedHides(cfg, srv.table, p, q, zk.store[p].mzxid, zk.store[q].mzxid);
  }

  /** So a table key shared by two live paths breaks coherence, and lets a version run ahead, in a run in
      which no create is raced, nothing is deleted, no add is refused and no step loses anything. */
  lemma CollisionBreaks(cfg: Config<Path>, live: set<Path>, pindex: nat, p: Path, q: Path)
    returns (es: seq<Event>, sys: System)
    requires cfg.Sound() && pindex < |cfg.primes| && p in live && q in live && p != q
    requires cfg.hash(p) == cfg.hash(q) && cfg.eq(p, p) && cfg.eq(q, p)
    ensures Run(cfg, live, Smooth, Initial(cfg, 2, pindex), es, sys)
    ensures Run(cfg, live, Lossless(cfg), Initial(cfg, 2, pindex), es, sys)
    ensures Run(cfg, live, ReadsLogged, Initial(cfg, 2, pindex), es, sys)
    ensures !Coherent(cfg, live, sys) && !NoneAhead(cfg, live, sys)
  {
    hide CheckAge, Run, Keeps, Smooth;
    es, sys := CollidingRun(cfg, live, pindex, p, q);
    RunWeaken(cfg, live, Clean(cfg), Smooth, Initial(cfg, 2, pindex), es, sys);
    RunWeaken(cfg, live, Clean(cfg), Lossless(cfg), Initial(cfg, 2, pindex), es, sys);
    KeepsReadsLogged(cfg);
    RunWeaken(cfg, live, Lossless(cfg), ReadsLogged, Initial(cfg, 2, pindex), es, sys);
    assert q !in Busy(sys.servers[1].pc) && Copy(sys.servers[1], q) == None;
  }

  // ---------- Adds that the library refuses ----------

  /** A client's add that the library refuses is pushed all the same: the server has created the znode and
      recorded its version, does not hold the node, and skips every fetch of it until the znode changes. No
      create is raced, nothing is deleted, and the get reads back what was pushed. */
  lemma RefusedAddIsPushed(cfg: Config<Path>, live: set<Path>, pindex: nat, p: Path, d: Data)
    returns (es: seq<Event>, sys: System)
    requires cfg.Sound() && pindex < |cfg.primes| && p in live && cfg.eq(p, p)
    ensures Run(cfg, live, Calm, Initial(cfg, 1, pindex), es, sys)
    ensures Run(cfg, live, GetsBack, Initial(cfg, 1, pindex), es, sys)
    ensures |sys.servers| == 1 && Missed(cfg, sys, 0, p) && sys.zk.store[p].data == d
  {
    hide Run, Insert, CheckAge, Valid, TablesValid;
    var first := Initial(cfg, 1, pindex);
    Begin(cfg, live, Calm, 1, pindex);
    TablesRunnable(cfg, first, 0);
    assert Valid(cfg, first.servers[0].table) by { TableOf(cfg, first, 0); }
    InsertIsFound(cfg, first.servers[0].table, p, 1, true);
    ValidIsRunnable(cfg, first.servers[0].(table := Insert(cfg, first.servers[0].table, p, 1, true, true)));
    es, sys := RefusedIsPushing(cfg, live, first, p, d);
    es, sys := Advance(cfg, live, Calm, first, es, sys, Event(0, PushCreate));
    es, sys := Advance(cfg, live, Calm, first, es, sys, Event(0, PushGet(0, true, true)));
    FoundIsFresh(cfg, sys.servers[0], p, 1);
    UnracedGetsBack(cfg, live, first, es, sys);
  }

  lemma RefusedIsPushing(cfg: Config<Path>, live: set<Path>, first: System, p: Path, d: Data)
    returns (es: seq<Event>, sys: System)
    requires |first.servers| == 1 && first.servers[0].pc.Idle? && Runnable(cfg, first.servers[0]) && p in live
    requires first.zk == Zk(map[], []) && first.servers[0].local == map[] && Run(cfg, live, Calm, first, [], first)
    ensures Run(cfg, live, Calm, first, es, sys)
    ensures sys == System(first.zk, [first.servers[0].(pc := Push(p, d, Create, Client, Done))])
  {
    hide Run, CheckAge;
    es, sys := Advance(cfg, live, Calm, first, [], first, Event(0, ClientAdd(p, d, false)));
    es, sys := Advance(cfg, live, Calm, first, es, sys, Event(0, Intercept));
    es, sys := Advance(cfg, live, Calm, first, es, sys, Event(0, PushExists));
  }

  /** A server fetches a node whose add the library refuses, such as one whose parent it does not know yet:
      the version was recorded before. */
  lemma RefusedFetchIsRecorded(cfg: Config<Path>, live: set<Path>, pindex: nat, p: Path)
    returns (es: seq<Event>, sys: System)
    requires cfg.Sound() && pindex < |cfg.primes| && p in live && cfg.eq(p, p)
    ensures Run(cfg, live, Calm, Initial(cfg, 2, pindex), es, sys)
    ensures Run(cfg, live, GetsBack, Initial(cfg, 2, pindex), es, sys)
    ensures |sys.servers| == 2 && Missed(cfg, sys, 1, p)
  {
    hide Run, Insert, CheckAge, Search, Valid, TablesValid, Keeps;
    var first := Initial(cfg, 2, pindex);
    Begin(cfg, live, Calm, 2, pindex);
    es, sys := CreateNode(cfg, live, Calm, first, [], first, 0, p, "");
    assert sys.servers[1] == first.servers[1] && sys.zk.store[p] == Znode("", 1);
    TableOf(cfg, sys, 1);
    TablesRunnable(cfg, sys, 1);
    InsertIsFound(cfg, sys.servers[1].table, p, 1, true);
    ValidIsRunnable(cfg, sys.servers[1].(table := Insert(cfg, sys.servers[1].table, p, 1, true, true)));
    es, sys := Advance(cfg, live, Calm, first, es, sys, Event(1, Fetch(p, true, true, false)));
    FoundIsFresh(cfg, sys.servers[1], p, 1);
    es, sys := Advance(cfg, live, Calm, first, es, sys, Event(1, Intercept));
    UnracedGetsBack(cfg, live, first, es, sys);
  }

  // ---------- Recording without removing ----------

  /** One recording: a path, its version, and whether memory was granted. */
  datatype Recording = Recording(p: Path, v: nat, tableMemory: bool, entryMemory: bool)

  function RecordAll(cfg: Config<Path>, t: State<Path, nat>, rs: seq<Recording>): State<Path, nat>
    requires cfg.Sound() && t.primeindex < |cfg.primes| && |t.buckets| > 0
    decreases |rs|
  {
    if rs == [] then t
    else
      var t' := Insert(cfg, t, rs[0].p, rs[0].v, rs[0].tableMemory, rs[0].entryMemory);
      if t'.primeindex < |cfg.primes| && |t'.buckets| > 0 then RecordAll(cfg, t', rs[1..]) else t'
  }

  /** Whether the table moves to a larger prime an odd number of times while rs is recorded. */
  predicate OddRehashes(cfg: Config<Path>, t: State<Path, nat>, rs: seq<Recording>)
    requires cfg.Sound() && t.primeindex < |cfg.primes| && |t.buckets| > 0
    decreases |rs|
  {
    if rs == [] then false
    else
      var t' := Insert(cfg, t, rs[0].p, rs[0].v, rs[0].tableMemory, rs[0].entryMemory);
      Expands(cfg, t, rs[0].tableMemory) !=
        (t'.primeindex < |cfg.primes| && |t'.buckets| > 0 && OddRehashes(cfg, t', rs[1..]))
  }

  lemma {:induction false} ReverseTwice<T>(s: seq<T>)
    ensures Reverse(Reverse(s)) == s
  {
    if s != [] {
      ReverseTwice(s[1..]);
      ReverseAppend(Reverse(s[1..]), s[0]);
    }
  }

  lemma {:induction false} ReverseAppend<T>(s: seq<T>, x: T)
    ensures Reverse(s + [x]) == [x] + Reverse(s)
  {
    if s != [] {
      ReverseAppend(s[1..], x);
      assert (s + [x])[1..] == s[1..] + [x];
    }
  }

  /** Recordings that do not concern p leave p's records alone, in their order after an even number
      of rehashes and in the opposite order after an odd number. So what a search finds for p is its
      newest record exactly as long as rehashes come in pairs, its oldest otherwise. */
  lemma {:induction false} RecordsAfterRehashes(cfg: Config<Path>, t: State<Path, nat>, p: Path, rs: seq<Recording>)
    requires Valid(cfg, t)
    requires forall r :: r in rs ==> cfg.hash(r.p) != cfg.hash(p) || !cfg.eq(p, r.p)
    ensures Valid(cfg, RecordAll(cfg, t, rs))
    ensures Entries(cfg, RecordAll(cfg, t, rs), p) ==
            if OddRehashes(cfg, t, rs) then Reverse(Entries(cfg, t, p)) else Entries(cfg, t, p)
    decreases |rs|
  {
    if rs != [] {
      hide Insert, Expands, Entries, Placed, Hashed, Reverse, Flat;
      var r := rs[0];
      assert r in rs;
      InsertCorrect(cfg, t, r.p, r.v, r.tableMemory, r.entryMemory);
      var t' := Insert(cfg, t, r.p, r.v, r.tableMemory, r.entryMemory);
      assert Entries(cfg, t', p) ==
             if Expands(cfg, t, r.tableMemory) then Reverse(Entries(cfg, t, p)) else Entries(cfg, t, p);
      assert forall r' :: r' in rs[1..] ==> r' in rs;
      RecordsAfterRehashes(cfg, t', p, rs[1..]);
      ReverseTwice(Entries(cfg, t, p));
    }
  }

  lemma {:induction false} ReverseHead<T>(s: seq<T>)
    requires s != []
    ensures Reverse(s) != [] && Reverse(s)[0] == s[|s| - 1]
  {
    if |s| > 1 {
      ReverseHead(s[1..]);
    }
  }

  /** Record v for p, and then anything for other paths: a search for p finds v, or, after an odd
      number of rehashes, the oldest of all versions recorded for p. Either way it finds a version
      recorded for p, so at worst the node is fetched once more. */
  lemma FoundAfterRecording(cfg: Config<Path>, t: State<Path, nat>, p: Path, v: nat, tm: bool, rs: seq<Recording>)
    requires Valid(cfg, t) && cfg.eq(p, p)
    requires forall r :: r in rs ==> cfg.hash(r.p) != cfg.hash(p) || !cfg.eq(p, r.p)
    ensures var t' := Insert(cfg, t, p, v, tm, true);
            var m := Entries(cfg, t', p);
            && Valid(cfg, t') && m != [] && m[0].v == v
            && Valid(cfg, RecordAll(cfg, t', rs))
            && Search(cfg, RecordAll(cfg, t', rs), p) == Some(if OddRehashes(cfg, t', rs) then m[|m| - 1].v else v)
  {
    hide Insert, Entries, Reverse, OddRehashes, RecordAll;
    var t' := Insert(cfg, t, p, v, tm, true);
    InsertCorrect(cfg, t, p, v, tm, true);
    RecordsAfterRehashes(cfg, t', p, rs);
    SearchCorrect(cfg, RecordAll(cfg, t', rs), p);
    ReverseHead(Entries(cfg, t', p));
  }

  /** So the record of the version v, once made, shows as long as rehashes come in pairs; after an odd number
      of them it shows only if it is the one record of its path, or the oldest was of the same version. If
      it does not show, the node is fetched again, whatever became of its copy. */
  lemma CurrentShowsIff(cfg: Config<Path>, t: State<Path, nat>, p: Path, v: nat, tm: bool, rs: seq<Recording>)
    requires Valid(cfg, t) && cfg.eq(p, p)
    requires forall r :: r in rs ==> cfg.hash(r.p) != cfg.hash(p) || !cfg.eq(p, r.p)
    ensures var t' := Insert(cfg, t, p, v, tm, true);
            var m, last := Entries(cfg, t', p), RecordAll(cfg, t', rs);
            && m != [] && |last.buckets| > 0
            && (CheckAge(cfg, last, p, v) == 0 <==> !OddRehashes(cfg, t', rs) || m[|m| - 1].v == v)
            && (OddRehashes(cfg, t', rs) && m[|m| - 1].v < v ==> CheckAge(cfg, last, p, v) == -1)
  {
    hide Insert, Entries, OddRehashes, RecordAll, Search;
    FoundAfterRecording(cfg, t, p, v, tm, rs);
  }
}
