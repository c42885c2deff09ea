/** Every way in which coherence can be lost, deletions included. A server's records are true if each record
    of a znode's current version stands for a copy of its current data. */
module Losses {
  import opened Sequences
  import opened Table
  import opened TableLemmas
  import opened Protocol
  import opened Versions
  import opened Coherence

  ghost predicate RecordsTrue(sys: System) {
    forall s :: 0 <= s < |sys.servers| ==> Fresh(sys.zk, sys.servers[s])
  }

  /** Version v has been recorded for p, now or earlier. */
  predicate Recorded(t: State<Path, nat>, p: Path, v: nat) {
    exists i :: 0 <= i < |Flat(t.buckets)| && Flat(t.buckets)[i].k == p && Flat(t.buckets)[i].v == v
  }

  /** The step loses coherence: it records a version that was just written, read back or fetched, while the
      local copy is other data, or it removes the local copy of a node whose current version is recorded. */
  predicate Loses(cfg: Config<Path>, zk: Zk, srv: Server, a: Action)
    requires Runnable(cfg, srv)
  {
    var pc := srv.pc;
    match a
    case PushSet(_, em) =>
      && pc.Push? && em && pc.p in zk.store && pc.p !in Rest(pc.resume) && !pc.resume.SecondAdd?
      && !(pc.p in srv.local && srv.local[pc.p] == pc.d)
    case PushGet(_, _, em) =>
      && pc.Push? && em && pc.p in zk.store && pc.p !in Rest(pc.resume)
      && if pc.resume.SecondAdd? then zk.store[pc.p].data != pc.d
         else !(pc.p in srv.local && srv.local[pc.p] == zk.store[pc.p].data)
    case Fetch(p, _, em, admits) =>
      && em && !admits && p in zk.store && CheckAge(cfg, srv.table, p, zk.store[p].mzxid) < 0
      && !(p in srv.local && srv.local[p] == zk.store[p].data)
    case _ => Removes(srv, a).Some? && CurrentRecorded(zk, srv.table, Removes(srv, a).value)
  }

  /** The node whose local copy the step deletes, while the store keeps the znode, if there is one. */
  function Removes(srv: Server, a: Action): Option<Path> {
    match a
    case ClientDelete(p) => if srv.replicate then None else Some(p)
    case DeleteEvent(p) => Some(p)
    case Replace(admits) => if srv.pc.Replacing? && !admits then Some(srv.pc.p) else None
    case _ => None
  }

  predicate CurrentRecorded(zk: Zk, t: State<Path, nat>, p: Path) {
    p in zk.store && Recorded(t, p, zk.store[p].mzxid)
  }

  predicate Keeps(cfg: Config<Path>, sys: System, e: Event) {
    && e.s < |sys.servers| && Runnable(cfg, sys.servers[e.s])
    && ReadsLogged(sys, e) && !Loses(cfg, sys.zk, sys.servers[e.s], e.a)
  }

  /** No step loses coherence. */
  function Lossless(cfg: Config<Path>): (System, Event) -> bool {
    (sys, e) => Keeps(cfg, sys, e)
  }

  // ---------- The invariant ----------

  /** No record of p is of its current version. */
  ghost predicate Uncurrent(zk: Zk, t: State<Path, nat>, p: Path) {
    p in zk.store ==> forall c :: c in Cells(t) && c.k == p ==> c.v != zk.store[p].mzxid
  }

  ghost predicate PcSound(zk: Zk, srv: Server) {
    match srv.pc
    case Pushing(todo) => forall p :: p in todo ==> p in srv.local
    case Push(p, _, stage, _, resume) =>
      && (forall q :: q in Rest(resume) ==> q in srv.local)
      && (stage == Create || stage == Get ==> Uncurrent(zk, srv.table, p))
    case _ => true
  }

  ghost predicate Sound(cfg: Config<Path>, live: set<Path>, sys: System) {
    && SystemOk(cfg, live, sys) && RecordsTrue(sys)
    && forall s :: 0 <= s < |sys.servers| ==> PcSound(sys.zk, sys.servers[s])
  }

  lemma RecordedIsCell(t: State<Path, nat>, p: Path, v: nat)
    ensures Recorded(t, p, v) <==> exists c :: c in Cells(t) && c.k == p && c.v == v
  {
    if c :| c in Cells(t) && c.k == p && c.v == v {
      assert c in Flat(t.buckets);
    }
    if Recorded(t, p, v) {
      var i :| 0 <= i < |Flat(t.buckets)| && Flat(t.buckets)[i].k == p && Flat(t.buckets)[i].v == v;
      assert Flat(t.buckets)[i] in Cells(t);
    }
  }

  /** A change of the store makes no record current: its version is newer than all of them. */
  lemma OthersStaySound(cfg: Config<Path>, live: set<Path>, zk: Zk, zk': Zk, srv: Server)
    requires Evolves(zk, zk') && ServerOk(cfg, live, zk, srv) && Fresh(zk, srv) && PcSound(zk, srv)
    ensures Fresh(zk', srv) && PcSound(zk', srv)
  {
    CellsAreOld(cfg, live, zk, srv.table);
  }

  lemma WrittenIsNew(cfg: Config<Path>, live: set<Path>, zk: Zk, t: State<Path, nat>, p: Path, d: Data, cause: Cause)
    requires TableOk(cfg, live, zk, t)
    ensures Uncurrent(zk.Write(p, d, cause), t, p)
  {
    CellsAreOld(cfg, live, zk, t);
  }

  /** A step that records version v of p, if memory allows, keeps the records true if it keeps the copies of
      all other nodes, and p's copy is right, or no record of it is current. */
  lemma RecordingKeepsTrue(cfg: Config<Path>, live: set<Path>, zk: Zk, zk': Zk, srv: Server, srv': Server, p: Path,
                           v: nat, tm: bool, em: bool)
    requires TableOk(cfg, live, zk, srv.table) && Runnable(cfg, srv) && Fresh(zk, srv)
    requires zk' == zk || exists d, cause :: zk' == zk.Write(p, d, cause)
    requires srv'.table == Insert(cfg, srv.table, p, v, tm, em)
    requires forall q :: q != p ==> Copy(srv', q) == Copy(srv, q) && (q in Busy(srv.pc) ==> q in Busy(srv'.pc))
    requires || p in Busy(srv'.pc) || p !in zk'.store || Copy(srv', p) == Some(zk'.store[p].data)
             || (Uncurrent(zk', srv.table, p) && (em ==> v != zk'.store[p].mzxid))
    ensures Fresh(zk', srv')
  {
    RecordedCells(cfg, live, zk, srv, p, v, tm, em);
    hide TableOk, Shaped, Insert;
    forall c | c in Cells(srv'.table) && c.k !in Busy(srv'.pc) && c.k in zk'.store && c.v == zk'.store[c.k].mzxid
      ensures Copy(srv', c.k) == Some(zk'.store[c.k].data)
    {
      if c.k != p {
        assert c in Cells(srv.table) && c.k !in Busy(srv.pc);
      }
    }
  }

  /** Where memory for the entry is refused, the records are the old ones. */
  lemma RecordingNothing(cfg: Config<Path>, live: set<Path>, zk: Zk, srv: Server, srv': Server, p: Path, v: nat,
                         tm: bool)
    requires TableOk(cfg, live, zk, srv.table) && Runnable(cfg, srv) && Fresh(zk, srv)
    requires srv'.table == Insert(cfg, srv.table, p, v, tm, false)
    requires forall q :: Copy(srv', q) == Copy(srv, q) && (q in Busy(srv.pc) ==> q in Busy(srv'.pc))
    ensures Fresh(zk, srv')
  {
    RecordedCells(cfg, live, zk, srv, p, v, tm, false);
    hide TableOk, Shaped, Insert;
  }

  // ---------- Steps that lose nothing ----------

  /** Returning from a push leaves all other nodes alone. */
  lemma ReturnKeeps(zk: Zk, srv: Server, t: State<Path, nat>)
    requires srv.pc.Push? && forall q :: q in Rest(srv.pc.resume) ==> q in srv.local
    ensures var p, srv' := srv.pc.p, Return(srv.(table := t), srv.pc.p, srv.pc.d, srv.pc.cause, srv.pc.resume);
            && srv'.table == t && PcSound(zk, srv')
            && (forall q :: q != p ==> Copy(srv', q) == Copy(srv, q) && (q in Busy(srv.pc) ==> q in Busy(srv'.pc)))
            && (p in Rest(srv.pc.resume) ==> p in Busy(srv'.pc))
            && Copy(srv', p) == (if srv.pc.resume.SecondAdd? then Some(srv.pc.d)
                                 else if p in srv.local then Some(srv.local[p]) else None)
  {
  }

  lemma PushSetSound(cfg: Config<Path>, live: set<Path>, zk: Zk, srv: Server, tm: bool, em: bool)
    requires ServerOk(cfg, live, zk, srv) && Fresh(zk, srv) && PcSound(zk, srv) && Runnable(cfg, srv)
    requires Enabled(srv, PushSet(tm, em)) && !Loses(cfg, zk, srv, PushSet(tm, em))
    ensures var (zk', srv') := Step(cfg, zk, srv, PushSet(tm, em)); Fresh(zk', srv') && PcSound(zk', srv')
  {
    hide TableOk, Insert, Fresh, Uncurrent, Return, Copy, Busy;
    var (zk', srv') := Step(cfg, zk, srv, PushSet(tm, em));
    var v := if srv.pc.p in zk.store then |zk.log| + 1 else srv.pc.stage.seen;
    ReturnKeeps(zk', srv, Insert(cfg, srv.table, srv.pc.p, v, tm, em));
    if srv.pc.p in zk.store {
      WrittenIsNew(cfg, live, zk, srv.table, srv.pc.p, srv.pc.d, srv.pc.cause);
    }
    RecordingKeepsTrue(cfg, live, zk, zk', srv, srv', srv.pc.p, v, tm, em);
  }

  lemma PushGetSound(cfg: Config<Path>, live: set<Path>, zk: Zk, srv: Server, garbage: nat, tm: bool, em: bool)
    requires ServerOk(cfg, live, zk, srv) && Fresh(zk, srv) && PcSound(zk, srv) && Runnable(cfg, srv)
    requires Enabled(srv, PushGet(garbage, tm, em)) && !Loses(cfg, zk, srv, PushGet(garbage, tm, em))
    ensures var srv' := Step(cfg, zk, srv, PushGet(garbage, tm, em)).1; Fresh(zk, srv') && PcSound(zk, srv')
  {
    hide TableOk, Insert, Fresh, Uncurrent, Return, Copy, Busy;
    var srv' := Step(cfg, zk, srv, PushGet(garbage, tm, em)).1;
    var v := if srv.pc.p in zk.store then zk.store[srv.pc.p].mzxid else garbage;
    ReturnKeeps(zk, srv, Insert(cfg, srv.table, srv.pc.p, v, tm, em));
    RecordingKeepsTrue(cfg, live, zk, zk, srv, srv', srv.pc.p, v, tm, em);
  }

  lemma PushCreateSound(cfg: Config<Path>, live: set<Path>, zk: Zk, srv: Server)
    requires ServerOk(cfg, live, zk, srv) && Fresh(zk, srv) && PcSound(zk, srv) && Runnable(cfg, srv)
    requires Enabled(srv, PushCreate)
    ensures var (zk', srv') := Step(cfg, zk, srv, PushCreate); Fresh(zk', srv') && PcSound(zk', srv')
  {
    hide TableOk, Uncurrent;
    WrittenIsNew(cfg, live, zk, srv.table, srv.pc.p, srv.pc.d, srv.pc.cause);
  }

  lemma PushExistsSound(cfg: Config<Path>, live: set<Path>, zk: Zk, srv: Server)
    requires ServerOk(cfg, live, zk, srv) && Fresh(zk, srv) && PcSound(zk, srv) && Runnable(cfg, srv)
    requires Enabled(srv, PushExists)
    ensures var srv' := Step(cfg, zk, srv, PushExists).1; Fresh(zk, srv') && PcSound(zk, srv')
  {
    hide TableOk, Fresh;
    CopiesKept(zk, srv, Step(cfg, zk, srv, PushExists).1);
  }

  lemma FetchSound(cfg: Config<Path>, live: set<Path>, zk: Zk, srv: Server, p: Path, tm: bool, em: bool, admits: bool)
    requires ServerOk(cfg, live, zk, srv) && Fresh(zk, srv) && PcSound(zk, srv) && Runnable(cfg, srv)
    requires Enabled(srv, Fetch(p, tm, em, admits)) && !Loses(cfg, zk, srv, Fetch(p, tm, em, admits))
    ensures var srv' := Step(cfg, zk, srv, Fetch(p, tm, em, admits)).1; Fresh(zk, srv') && PcSound(zk, srv')
  {
    hide TableOk, Insert, Fresh, CheckAge, Search, Uncurrent;
    var srv' := Step(cfg, zk, srv, Fetch(p, tm, em, admits)).1;
    if srv'.pc.Added? {
      if !em && !admits {
        RecordingNothing(cfg, live, zk, srv, srv', p, zk.store[p].mzxid, tm);
      } else {
        RecordingKeepsTrue(cfg, live, zk, zk, srv, srv', p, zk.store[p].mzxid, tm, em);
      }
    }
  }

  lemma LocalStepSound(cfg: Config<Path>, live: set<Path>, zk: Zk, srv: Server, a: Action)
    requires ServerOk(cfg, live, zk, srv) && Fresh(zk, srv) && PcSound(zk, srv) && Runnable(cfg, srv) && Enabled(srv, a)
    requires a.NextPush? || a.ClientAdd? || a.Intercept?
    ensures var srv' := Step(cfg, zk, srv, a).1; Fresh(zk, srv') && PcSound(zk, srv')
  {
    hide TableOk, Insert, Fresh, CheckAge, Search, Uncurrent;
    CopiesKept(zk, srv, Step(cfg, zk, srv, a).1);
  }

  lemma ClientWriteSound(cfg: Config<Path>, zk: Zk, srv: Server, writes: seq<(Path, Data)>)
    requires Fresh(zk, srv) && Runnable(cfg, srv) && Enabled(srv, ClientWrite(writes))
    ensures var srv' := Step(cfg, zk, srv, ClientWrite(writes)).1; Fresh(zk, srv') && PcSound(zk, srv')
  {
    hide Fresh;
    WrittenElsewhere(srv.local, writes);
    CopiesKept(zk, srv, Step(cfg, zk, srv, ClientWrite(writes)).1);
  }

  lemma RemovalSound(cfg: Config<Path>, live: set<Path>, zk: Zk, srv: Server, a: Action)
    requires ServerOk(cfg, live, zk, srv) && Fresh(zk, srv) && PcSound(zk, srv) && Runnable(cfg, srv) && Enabled(srv, a)
    requires (Deletes(a) || a.Replace?) && !Loses(cfg, zk, srv, a)
    ensures var (zk', srv') := Step(cfg, zk, srv, a); Fresh(zk', srv') && PcSound(zk', srv')
  {
    hide TableOk, Recorded, Cells;
    var p := if a.Replace? then srv.pc.p else a.p;
    if p in zk.store {
      RecordedIsCell(srv.table, p, zk.store[p].mzxid);
    }
  }

  lemma StepSound(cfg: Config<Path>, live: set<Path>, zk: Zk, srv: Server, a: Action)
    requires ServerOk(cfg, live, zk, srv) && Fresh(zk, srv) && PcSound(zk, srv) && Runnable(cfg, srv) && Enabled(srv, a)
    requires !Loses(cfg, zk, srv, a)
    ensures var (zk', srv') := Step(cfg, zk, srv, a); Fresh(zk', srv') && PcSound(zk', srv')
  {
    hide ServerOk, Fresh, PcSound, Loses, CheckAge, Insert;
    match a
    case PushSet(tm, em) => PushSetSound(cfg, live, zk, srv, tm, em);
    case PushGet(g, tm, em) => PushGetSound(cfg, live, zk, srv, g, tm, em);
    case PushCreate => PushCreateSound(cfg, live, zk, srv);
    case PushExists => PushExistsSound(cfg, live, zk, srv);
    case Fetch(p, tm, em, admits) => FetchSound(cfg, live, zk, srv, p, tm, em, admits);
    case ClientWrite(writes) => ClientWriteSound(cfg, zk, srv, writes);
    case Replace(_) => RemovalSound(cfg, live, zk, srv, a);
    case ClientDelete(_) => RemovalSound(cfg, live, zk, srv, a);
    case DeleteEvent(_) => RemovalSound(cfg, live, zk, srv, a);
    case _ => LocalStepSound(cfg, live, zk, srv, a);
  }

  lemma NextSound(cfg: Config<Path>, live: set<Path>, sys: System, e: Event)
    requires Sound(cfg, live, sys) && Possible(cfg, live, sys, e) && Keeps(cfg, sys, e)
    ensures Sound(cfg, live, Protocol.Next(cfg, live, sys, e))
  {
    hide ServerOk, StoreOk, Fresh, PcSound, Loses, Step, Evolves;
    var zk, srv := sys.zk, sys.servers[e.s];
    var zk' := Step(cfg, zk, srv, e.a).0;
    NextOk(cfg, live, sys, e);
    StepEvolves(cfg, zk, srv, e.a);
    StepSound(cfg, live, zk, srv, e.a);
    forall s | 0 <= s < |sys.servers| && s != e.s
      ensures Fresh(zk', sys.servers[s]) && PcSound(zk', sys.servers[s])
    {
      OthersStaySound(cfg, live, zk, zk', sys.servers[s]);
    }
  }

  // ---------- Steps that lose something ----------

  lemma RemovalBreaks(cfg: Config<Path>, zk: Zk, srv: Server, a: Action)
    requires Runnable(cfg, srv) && Enabled(srv, a) && Removes(srv, a).Some? && Loses(cfg, zk, srv, a)
    ensures !Fresh(Step(cfg, zk, srv, a).0, Step(cfg, zk, srv, a).1)
  {
    hide Recorded, Cells, CheckAge, Insert;
    var p := Removes(srv, a).value;
    RecordedIsCell(srv.table, p, zk.store[p].mzxid);
  }

  /** The record just made is of the current version, and the copy is something else. */
  lemma RecordBreaks(cfg: Config<Path>, zk: Zk, srv: Server, t: State<Path, nat>, p: Path, tm: bool)
    requires Valid(cfg, t) && p in zk.store && srv.table == Insert(cfg, t, p, zk.store[p].mzxid, tm, true)
    requires p !in Busy(srv.pc) && Copy(srv, p) != Some(zk.store[p].data)
    ensures !Fresh(zk, srv)
  {
    hide Insert, Valid, Copy, Busy;
    InsertCorrect(cfg, t, p, zk.store[p].mzxid, tm, true);
    assert Cell(cfg.hash(p), p, zk.store[p].mzxid) in Cells(srv.table);
  }

  /** A recording whose version is current, or a copy that is removed, leaves a record that is not true. */
  lemma LossBreaks(cfg: Config<Path>, live: set<Path>, zk: Zk, srv: Server, a: Action)
    requires ServerOk(cfg, live, zk, srv) && Runnable(cfg, srv) && Enabled(srv, a) && Loses(cfg, zk, srv, a)
    ensures !Fresh(Step(cfg, zk, srv, a).0, Step(cfg, zk, srv, a).1)
  {
    hide Insert, CheckAge, Recorded, Fresh, Valid;
    var (zk', srv') := Step(cfg, zk, srv, a);
    match a
    case Fetch(p, tm, _, _) => RecordBreaks(cfg, zk', srv', srv.table, p, tm);
    case PushSet(tm, _) => RecordBreaks(cfg, zk', srv', srv.table, srv.pc.p, tm);
    case PushGet(_, tm, _) => RecordBreaks(cfg, zk', srv', srv.table, srv.pc.p, tm);
    case _ => RemovalBreaks(cfg, zk, srv, a);
  }

  // ---------- Runs ----------

  ghost predicate TrueThroughout(cfg: Config<Path>, live: set<Path>, sys: System, es: seq<Event>)
    decreases |es|
  {
    && RecordsTrue(sys)
    && (es != [] && Possible(cfg, live, sys, es[0]) ==>
        TrueThroughout(cfg, live, Protocol.Next(cfg, live, sys, es[0]), es[1..]))
  }

  lemma NextBreaks(cfg: Config<Path>, live: set<Path>, sys: System, e: Event)
    requires Sound(cfg, live, sys) && Possible(cfg, live, sys, e) && Loses(cfg, sys.zk, sys.servers[e.s], e.a)
    ensures !RecordsTrue(Protocol.Next(cfg, live, sys, e))
  {
    hide ServerOk, Fresh, Loses, Step;
    LossBreaks(cfg, live, sys.zk, sys.servers[e.s], e.a);
    assert Protocol.Next(cfg, live, sys, e).servers[e.s] == Step(cfg, sys.zk, sys.servers[e.s], e.a).1;
  }

  lemma {:induction false} TrueIffLosslessFrom(cfg: Config<Path>, live: set<Path>, sys: System, es: seq<Event>,
                                               sys': System)
    requires Sound(cfg, live, sys) && Run(cfg, live, ReadsLogged, sys, es, sys')
    ensures TrueThroughout(cfg, live, sys, es) <==> Run(cfg, live, Lossless(cfg), sys, es, sys')
    decreases |es|
  {
    hide SystemOk, RecordsTrue, Loses, ReadsLogged, PcSound, Possible;
    if es != [] {
      if Keeps(cfg, sys, es[0]) {
        NextSound(cfg, live, sys, es[0]);
        TrueIffLosslessFrom(cfg, live, Protocol.Next(cfg, live, sys, es[0]), es[1..], sys');
      } else {
        LosesOrBad(cfg, live, sys, es[0]);
        NextBreaks(cfg, live, sys, es[0]);
      }
    }
  }

  lemma LosesOrBad(cfg: Config<Path>, live: set<Path>, sys: System, e: Event)
    requires Possible(cfg, live, sys, e) && ReadsLogged(sys, e) && !Keeps(cfg, sys, e)
    ensures Loses(cfg, sys.zk, sys.servers[e.s], e.a)
  {
  }

  lemma InitialSound(cfg: Config<Path>, live: set<Path>, n: nat, pindex: nat)
    requires cfg.Sound() && pindex < |cfg.primes|
    ensures Sound(cfg, live, Initial(cfg, n, pindex))
  {
    InitialOk(cfg, live, n, pindex);
    CreateCorrect<Path, nat>(cfg, pindex);
  }

  /** In every run whose gets succeed, with raced creates and with deletions: all records are true in every
      state exactly if no step loses coherence. */
  lemma TrueIffLossless(cfg: Config<Path>, live: set<Path>, n: nat, pindex: nat, es: seq<Event>, sys: System)
    requires cfg.Sound() && pindex < |cfg.primes| && Run(cfg, live, ReadsLogged, Initial(cfg, n, pindex), es, sys)
    ensures TrueThroughout(cfg, live, Initial(cfg, n, pindex), es) <==>
        Run(cfg, live, Lossless(cfg), Initial(cfg, n, pindex), es, sys)
  {
    InitialSound(cfg, live, n, pindex);
    TrueIffLosslessFrom(cfg, live, Initial(cfg, n, pindex), es, sys);
  }

  lemma {:induction false} RunSound(cfg: Config<Path>, live: set<Path>, sys: System, es: seq<Event>, sys': System)
    requires Sound(cfg, live, sys) && Run(cfg, live, Lossless(cfg), sys, es, sys')
    ensures Sound(cfg, live, sys')
    decreases |es|
  {
    if es != [] {
      hide Sound, Lossless, Possible;
      NextSound(cfg, live, sys, es[0]);
      RunSound(cfg, live, Protocol.Next(cfg, live, sys, es[0]), es[1..], sys');
    }
  }

  /** Coherence with deletions: in every run without such a step, a skipped fetch never leaves a stale copy. */
  lemma LosslessIsCoherent(cfg: Config<Path>, live: set<Path>, n: nat, pindex: nat, es: seq<Event>, sys: System)
    requires CollisionFree(cfg, live) && pindex < |cfg.primes|
    requires Run(cfg, live, Lossless(cfg), Initial(cfg, n, pindex), es, sys)
    ensures Coherent(cfg, live, sys)
  {
    InitialSound(cfg, live, n, pindex);
    RunSound(cfg, live, Initial(cfg, n, pindex), es, sys);
    FreshIsCoherent(cfg, live, sys);
  }

  // ---------- What a skipped fetch shows ----------

  /** If the step removes the copy of a node whose current version is recorded, that record is the one that a
      search finds: no odd number of rehashes has put an older one before it. */
  predicate Shows(cfg: Config<Path>, sys: System, e: Event) {
    && e.s < |sys.servers| && Runnable(cfg, sys.servers[e.s])
    && var zk, srv := sys.zk, sys.servers[e.s];
       Removes(srv, e.a).Some? && CurrentRecorded(zk, srv.table, Removes(srv, e.a).value) ==>
         CheckAge(cfg, srv.table, Removes(srv, e.a).value, zk.store[Removes(srv, e.a).value].mzxid) == 0
  }

  function Shown(cfg: Config<Path>): (System, Event) -> bool {
    (sys, e) => ReadsLogged(sys, e) && Shows(cfg, sys, e)
  }

  /** The node whose copy a step loses. */
  function Lost(srv: Server, a: Action): Path {
    match a
    case Fetch(p, _, _, _) => p
    case ClientDelete(p) => p
    case DeleteEvent(p) => p
    case _ => if srv.pc.Idle? || srv.pc.Pushing? then "" else srv.pc.p
  }

  /** After a step that loses coherence, and whose loss shows, the record of the node is as fresh as the
      store, and its copy is other data, or gone. */
  lemma LossShows(cfg: Config<Path>, live: set<Path>, zk: Zk, srv: Server, a: Action)
    requires CollisionFree(cfg, live) && StoreOk(zk) && ServerOk(cfg, live, zk, srv)
    requires Runnable(cfg, srv) && Enabled(srv, a) && Loses(cfg, zk, srv, a)
    requires a.Fetch? ==> a.p in live
    requires Removes(srv, a).Some? ==>
               Removes(srv, a).value in live &&
               CheckAge(cfg, srv.table, Removes(srv, a).value, zk.store[Removes(srv, a).value].mzxid) == 0
    ensures var (zk', srv') := Step(cfg, zk, srv, a);
            var p := Lost(srv, a);
            && p in live && p in zk'.store && p !in Busy(srv'.pc) && |srv'.table.buckets| > 0
            && CheckAge(cfg, srv'.table, p, zk'.store[p].mzxid) == 0 && Copy(srv', p) != Some(zk'.store[p].data)
  {
    hide Insert, Search, Placed, Hashed, Recorded, StoreOk;
    match a
    case PushSet(tm, _) => InsertIsFound(cfg, srv.table, srv.pc.p, |zk.log| + 1, tm);
    case PushGet(_, tm, _) => InsertIsFound(cfg, srv.table, srv.pc.p, zk.store[srv.pc.p].mzxid, tm);
    case Fetch(p, tm, _, _) => InsertIsFound(cfg, srv.table, p, zk.store[p].mzxid, tm);
    case _ =>
  }

  lemma NextShows(cfg: Config<Path>, live: set<Path>, sys: System, e: Event)
    requires CollisionFree(cfg, live) && SystemOk(cfg, live, sys) && Possible(cfg, live, sys, e)
    requires Loses(cfg, sys.zk, sys.servers[e.s], e.a) && Shows(cfg, sys, e)
    ensures !Coherent(cfg, live, Protocol.Next(cfg, live, sys, e))
  {
    hide Loses, Step, CheckAge, Busy, Copy, Coherent, TableOk, StoreOk;
    var zk, srv := sys.zk, sys.servers[e.s];
    assert ServerOk(cfg, live, zk, srv);
    RemovedIsLive(cfg, live, sys, e);
    LossShows(cfg, live, zk, srv, e.a);
    if Coherent(cfg, live, Protocol.Next(cfg, live, sys, e)) {
      CoherentAt(cfg, live, Protocol.Next(cfg, live, sys, e), e.s, Lost(srv, e.a));
    }
  }

  lemma RemovedIsLive(cfg: Config<Path>, live: set<Path>, sys: System, e: Event)
    requires SystemOk(cfg, live, sys) && Possible(cfg, live, sys, e)
    requires Loses(cfg, sys.zk, sys.servers[e.s], e.a)
    ensures e.a.Fetch? ==> e.a.p in live
    ensures var srv := sys.servers[e.s];
            Removes(srv, e.a).Some? ==>
              Removes(srv, e.a).value in live && CurrentRecorded(sys.zk, srv.table, Removes(srv, e.a).value)
  {
    hide TableOk, StoreOk, CheckAge, CurrentRecorded;
    var srv := sys.servers[e.s];
    assert ServerOk(cfg, live, sys.zk, srv);
    if e.a.Fetch? || e.a.ClientDelete? || e.a.DeleteEvent? {
      assert e.a.p in Names(e.a);
    }
  }

  lemma {:induction false} CoherentIffLosslessFrom(cfg: Config<Path>, live: set<Path>, sys: System, es: seq<Event>,
                                                   sys': System)
    requires CollisionFree(cfg, live) && Sound(cfg, live, sys) && Run(cfg, live, Shown(cfg), sys, es, sys')
    ensures CoherentThroughout(cfg, live, sys, es) <==> Run(cfg, live, Lossless(cfg), sys, es, sys')
    decreases |es|
  {
    hide SystemOk, Coherent, Loses, ReadsLogged, PcSound, Possible, Shows, CollisionFree;
    SoundIsCoherent(cfg, live, sys);
    if es != [] {
      if Keeps(cfg, sys, es[0]) {
        NextSound(cfg, live, sys, es[0]);
        CoherentIffLosslessFrom(cfg, live, Protocol.Next(cfg, live, sys, es[0]), es[1..], sys');
      } else {
        LosesOrBad(cfg, live, sys, es[0]);
        NextShows(cfg, live, sys, es[0]);
      }
    }
  }

  lemma SoundIsCoherent(cfg: Config<Path>, live: set<Path>, sys: System)
    requires CollisionFree(cfg, live) && Sound(cfg, live, sys)
    ensures Coherent(cfg, live, sys)
  {
    FreshIsCoherent(cfg, live, sys);
  }

  /** In every run with raced creates, deletions and refused adds, whose losses show: a skipped fetch leaves
      no stale copy, in any state, exactly if no step loses coherence. */
  lemma CoherentIffLossless(cfg: Config<Path>, live: set<Path>, n: nat, pindex: nat, es: seq<Event>, sys: System)
    requires CollisionFree(cfg, live) && pindex < |cfg.primes|
    requires Run(cfg, live, Shown(cfg), Initial(cfg, n, pindex), es, sys)
    ensures CoherentThroughout(cfg, live, Initial(cfg, n, pindex), es) <==>
            Run(cfg, live, Lossless(cfg), Initial(cfg, n, pindex), es, sys)
  {
    InitialSound(cfg, live, n, pindex);
    CoherentIffLosslessFrom(cfg, live, Initial(cfg, n, pindex), es, sys);
  }
}
