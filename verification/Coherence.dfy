/** Coherence: a server whose recorded versions are true holds the current data wherever it skips a fetch. */
module Coherence {
  import opened Sequences
  import opened Table
  import opened TableLemmas
  import opened Protocol
  import opened Handlers
  import opened Versions

  /** The paths a handler has written locally and not yet replicated. */
  function Busy(pc: Pc): seq<Path> {
    match pc
    case Pushing(todo) => todo
    case Push(p, _, _, _, resume) => [p] + Rest(resume)
    case _ => []
  }

  /** The handler is replacing the local copy of a fetched node. */
  predicate Replaces(pc: Pc, p: Path) {
    ((pc.Added? && pc.resume.SecondAdd?) || pc.Replacing?) && pc.p == p
  }

  /** The data a server holds for p, or is about to hold because its handler is replacing the node. */
  function Copy(srv: Server, p: Path): Option<Data> {
    if Replaces(srv.pc, p) then Some(srv.pc.d)
    else if p in srv.local then Some(srv.local[p])
    else None
  }

  /** A recorded version that is the current one stands for a copy of the current data. */
  ghost predicate Fresh(zk: Zk, srv: Server) {
    forall c :: c in Cells(srv.table) && c.k !in Busy(srv.pc) && c.k in zk.store && c.v == zk.store[c.k].mzxid ==>
      Copy(srv, c.k) == Some(zk.store[c.k].data)
  }

  // ---------- Steps ----------

  /** A recorded version is either newly recorded or was recorded before. */
  lemma RecordedCells(cfg: Config<Path>, live: set<Path>, zk: Zk, srv: Server, p: Path, v: nat, tm: bool, em: bool)
    requires TableOk(cfg, live, zk, srv.table)
    ensures forall c :: c in Cells(Insert(cfg, srv.table, p, v, tm, em)) ==>
        c in Cells(srv.table) || (em && c.k == p && c.v == v)
  {
    InsertCorrect(cfg, srv.table, p, v, tm, em);
  }

  lemma CellsAreOld(cfg: Config<Path>, live: set<Path>, zk: Zk, t: State<Path, nat>)
    requires TableOk(cfg, live, zk, t)
    ensures forall c :: c in Cells(t) ==> c.v <= |zk.log|
  {
  }

  lemma {:induction false} LocalWritesElsewhere(local: map<Path, Data>, writes: seq<(Path, Data)>, p: Path)
    requires p !in Written(local, writes)
    ensures p in local ==> LocalWrites(local, writes)[p] == local[p]
    decreases |writes|
  {
    if writes != [] {
      var local' := if writes[0].0 in local then local[writes[0].0 := writes[0].1] else local;
      WrittenSame(local, local', writes[1..]);
      LocalWritesElsewhere(local', writes[1..], p);
    }
  }

  /** A step that records nothing keeps Fresh if it keeps the copies of the paths it is not busy with. */
  lemma CopiesKept(zk: Zk, srv: Server, srv': Server)
    requires Fresh(zk, srv) && srv'.table == srv.table
    requires forall p :: p in zk.store && p !in Busy(srv'.pc) && p !in Busy(srv.pc) && Copy(srv, p).Some? ==>
               Copy(srv', p) == Copy(srv, p)
    requires forall p :: p in Busy(srv.pc) ==> p in Busy(srv'.pc)
    ensures Fresh(zk, srv')
  {
  }

  lemma WrittenElsewhere(local: map<Path, Data>, writes: seq<(Path, Data)>)
    ensures forall p :: p in local && p !in Written(local, writes) ==> LocalWrites(local, writes)[p] == local[p]
  {
    forall p | p in local && p !in Written(local, writes)
      ensures LocalWrites(local, writes)[p] == local[p]
    {
      LocalWritesElsewhere(local, writes, p);
    }
  }

  // ---------- What a skipped fetch leaves ----------

  /** When the age check says that a server's record of p is as fresh as the store, and the server's
      handler has no change of p to replicate, its copy is the store's data. */
  lemma AsFreshMeansEqual(cfg: Config<Path>, live: set<Path>, zk: Zk, srv: Server, p: Path)
    requires CollisionFree(cfg, live) && ServerOk(cfg, live, zk, srv) && Fresh(zk, srv)
    requires p in live && p in zk.store && p !in Busy(srv.pc)
    requires CheckAge(cfg, srv.table, p, zk.store[p].mzxid) == 0
    ensures Copy(srv, p) == Some(zk.store[p].data)
  {
    var c := FoundWasRecorded(cfg, live, zk, srv.table, p);
    assert Copy(srv, c.k) == Some(zk.store[c.k].data);
  }

  /** A skipped fetch leaves no stale copy behind: wherever a server's record is as fresh as the store, and
      its handler has no change of the node to replicate, its copy is the store's data. */
  ghost predicate Coherent(cfg: Config<Path>, live: set<Path>, sys: System) {
    forall s, p :: 0 <= s < |sys.servers| && p in live && p in sys.zk.store && p !in Busy(sys.servers[s].pc) ==>
      && Runnable(cfg, sys.servers[s])
      && (CheckAge(cfg, sys.servers[s].table, p, sys.zk.store[p].mzxid) >= 0 ==>
            Copy(sys.servers[s], p) == Some(sys.zk.store[p].data))
  }

  lemma FreshIsCoherent(cfg: Config<Path>, live: set<Path>, sys: System)
    requires CollisionFree(cfg, live) && SystemOk(cfg, live, sys)
    requires forall s :: 0 <= s < |sys.servers| ==> Fresh(sys.zk, sys.servers[s])
    ensures Coherent(cfg, live, sys)
  {
    forall s, p | 0 <= s < |sys.servers| && p in live && p in sys.zk.store && p !in Busy(sys.servers[s].pc)
      ensures Runnable(cfg, sys.servers[s])
      ensures CheckAge(cfg, sys.servers[s].table, p, sys.zk.store[p].mzxid) >= 0 ==>
                Copy(sys.servers[s], p) == Some(sys.zk.store[p].data)
    {
      var srv := sys.servers[s];
      assert ServerOk(cfg, live, sys.zk, srv) && Fresh(sys.zk, srv);
      hide Fresh, StoreOk, TableOk, CheckAge, Copy;
      OkIsRunnable(cfg, live, sys.zk, srv);
      NeverAhead(cfg, live, sys.zk, srv.table, p);
      if CheckAge(cfg, srv.table, p, sys.zk.store[p].mzxid) == 0 {
        AsFreshMeansEqual(cfg, live, sys.zk, srv, p);
      }
    }
  }

  lemma CoherentAt(cfg: Config<Path>, live: set<Path>, sys: System, s: nat, p: Path)
    requires Coherent(cfg, live, sys) && s < |sys.servers| && p in live && p in sys.zk.store
             && p !in Busy(sys.servers[s].pc)
    ensures Runnable(cfg, sys.servers[s])
    ensures CheckAge(cfg, sys.servers[s].table, p, sys.zk.store[p].mzxid) >= 0 ==>
              Copy(sys.servers[s], p) == Some(sys.zk.store[p].data)
  {
  }

  ghost predicate CoherentThroughout(cfg: Config<Path>, live: set<Path>, sys: System, es: seq<Event>)
    decreases |es|
  {
    && Coherent(cfg, live, sys)
    && (es != [] && Possible(cfg, live, sys, es[0]) ==>
        CoherentThroughout(cfg, live, Protocol.Next(cfg, live, sys, es[0]), es[1..]))
  }
}
