/** The replication protocol: any number of servers share a versioned store. Each server keeps its
    own copy of the nodes and a hash table of the mzxids it has recorded. Every call to the store is
    one step, so the handlers of different servers interleave between any two calls; each server
    runs its own handlers one at a time. */
module Protocol {
  import opened Sequences
  import opened Table

  type Path = string
  type Data = string

  // ---------- The store ----------

  datatype Znode = Znode(data: Data, mzxid: nat)

  /** Why a server changed the store: for a client of its own, or while applying a fetched node. */
  datatype Cause = Client | Apply

  datatype Mutation = Put(path: Path, data: Data, cause: Cause) | Del(path: Path)

  /** The znodes, and every change made to them so far; the i-th change has zxid i + 1. */
  datatype Zk = Zk(store: map<Path, Znode>, log: seq<Mutation>) {
    /** zoo_set2 and zoo_create, when they succeed. */
    function Write(p: Path, d: Data, cause: Cause): Zk {
      Zk(store[p := Znode(d, |log| + 1)], log + [Put(p, d, cause)])
    }

    /** zoo_delete, when it succeeds. */
    function Delete(p: Path): Zk {
      Zk(store - {p}, log + [Del(p)])
    }
  }

  // ---------- A server ----------

  /** What a handler does once its push or its add returns. */
  datatype Resume = Done | Writes(todo: seq<Path>) | SecondAdd

  datatype Stage = Exists | Set(seen: nat) | Create | Get

  /** Where a server's current handler stands. */
  datatype Pc =
    | Idle
    | Pushing(todo: seq<Path>)                                           // a write request: nodes still to replicate
    | Push(p: Path, d: Data, stage: Stage, cause: Cause, resume: Resume) // inside zkUA_UA_Server_replicateNode
    | Added(p: Path, d: Data, cause: Cause, resume: Resume)              // in the add interceptor, before its zoo_get
    | Replacing(p: Path, d: Data, cause: Cause)                          // an add failed because the node exists

  datatype Server = Server(table: State<Path, nat>, local: map<Path, Data>, replicate: bool, pc: Pc)

  /** One step of one server. Memory for the hash table may be refused at every insertion; when a
      get fails, stat holds the arbitrary number garbage. admits says that the library has no reason to
      refuse a local add, such as a parent that it does not know, other than that the node exists. */
  datatype Action =
    | ClientWrite(writes: seq<(Path, Data)>)
    | NextPush
    | PushExists
    | PushSet(tm: bool, em: bool)
    | PushCreate
    | PushGet(garbage: nat, tm: bool, em: bool)
    | ClientAdd(p: Path, d: Data, admits: bool)
    | Intercept
    | Fetch(p: Path, tm: bool, em: bool, admits: bool)
    | Replace(admits: bool)
    | ClientDelete(p: Path)
    | DeleteEvent(p: Path)

  /** zkUA_checkMzxidAge */
  function CheckAge(cfg: Config<Path>, t: State<Path, nat>, p: Path, mzxid: nat): (r: int)
    requires |t.buckets| > 0
    ensures r == 0 <==> Search(cfg, t, p) == Some(mzxid)
    ensures r == 1 <==> Search(cfg, t, p).Some? && Search(cfg, t, p).value > mzxid
    ensures r == -1 || r == 0 || r == 1
  {
    match Search(cfg, t, p)
    case None => -1
    case Some(val) => if val > mzxid then 1 else if val == mzxid then 0 else -1
  }

  /** The local add of a node: it fails, and changes nothing, when the node exists or the library refuses
      it for another reason. */
  function LocalAdd(local: map<Path, Data>, p: Path, d: Data, admits: bool): map<Path, Data> {
    if admits && p !in local then local[p := d] else local
  }

  /** The local writes of a write request, in order; writes to missing nodes fail and change nothing. */
  function LocalWrites(local: map<Path, Data>, writes: seq<(Path, Data)>): (r: map<Path, Data>)
    ensures r.Keys == local.Keys
    decreases |writes|
  {
    if writes == [] then local
    else LocalWrites(if writes[0].0 in local then local[writes[0].0 := writes[0].1] else local, writes[1..])
  }

  /** A node holds what the last write to it in the request put there, or, if there is none, what it held. */
  lemma {:induction false} LocalWritesAt(local: map<Path, Data>, writes: seq<(Path, Data)>, p: Path)
    requires p in local
    ensures (forall i :: 0 <= i < |writes| ==> writes[i].0 != p) ==> LocalWrites(local, writes)[p] == local[p]
    ensures forall i :: 0 <= i < |writes| && writes[i].0 == p && (forall j :: i < j < |writes| ==> writes[j].0 != p) ==>
              LocalWrites(local, writes)[p] == writes[i].1
    decreases |writes|
  {
    if writes != [] {
      var local' := if writes[0].0 in local then local[writes[0].0 := writes[0].1] else local;
      LocalWritesAt(local', writes[1..], p);
      forall i | 0 <= i < |writes| && writes[i].0 == p && (forall j :: i < j < |writes| ==> writes[j].0 != p)
        ensures LocalWrites(local, writes)[p] == writes[i].1
      {
        if i > 0 {
          assert writes[1..][i - 1] == writes[i];
        }
      }
    }
  }

  /** The targets of the writes that succeed. */
  function Written(local: map<Path, Data>, writes: seq<(Path, Data)>): (r: seq<Path>)
    ensures forall i :: 0 <= i < |r| ==> r[i] in local
    decreases |writes|
  {
    if writes == [] then []
    else (if writes[0].0 in local then [writes[0].0] else []) + Written(local, writes[1..])
  }

  /** Return from a push or an add. */
  function Return(srv: Server, p: Path, d: Data, cause: Cause, resume: Resume): Server {
    match resume
    case Done => srv.(pc := Idle)
    case Writes(todo) => srv.(pc := Pushing(todo))
    case SecondAdd => srv.(pc := Replacing(p, d, cause))
  }

  /** Record an mzxid, as zkUA_insertMzxidAge does. */
  function Record(cfg: Config<Path>, srv: Server, p: Path, mzxid: nat, tm: bool, em: bool): Server
    requires cfg.Sound() && srv.table.primeindex < |cfg.primes| && |srv.table.buckets| > 0
  {
    srv.(table := Insert(cfg, srv.table, p, mzxid, tm, em))
  }

  predicate Enabled(srv: Server, a: Action) {
    match a
    case ClientWrite(_) => srv.pc.Idle?
    case NextPush => srv.pc.Pushing?
    case PushExists => srv.pc.Push? && srv.pc.stage.Exists?
    case PushSet(_, _) => srv.pc.Push? && srv.pc.stage.Set?
    case PushCreate => srv.pc.Push? && srv.pc.stage.Create?
    case PushGet(_, _, _) => srv.pc.Push? && srv.pc.stage.Get?
    case ClientAdd(_, _, _) => srv.pc.Idle?
    case Intercept => srv.pc.Added?
    case Fetch(_, _, _, _) => srv.pc.Idle?
    case Replace(_) => srv.pc.Replacing?
    case ClientDelete(_) => srv.pc.Idle?
    case DeleteEvent(_) => srv.pc.Idle?
  }

  /** One step of a server, with its effect on the store. */
  function Step(cfg: Config<Path>, zk: Zk, srv: Server, a: Action): (Zk, Server)
    requires cfg.Sound() && srv.table.primeindex < |cfg.primes| && |srv.table.buckets| > 0
    requires Enabled(srv, a)
  {
    var pc := srv.pc;
    match a
    case ClientWrite(writes) =>
      (zk, srv.(local := LocalWrites(srv.local, writes), pc := Pushing(Written(srv.local, writes))))
    case NextPush =>
      if pc.todo == [] then (zk, srv.(pc := Idle))
      else if pc.todo[0] in srv.local
      then (zk, srv.(pc := Push(pc.todo[0], srv.local[pc.todo[0]], Exists, Client, Writes(pc.todo[1..]))))
      else (zk, srv.(pc := Pushing(pc.todo[1..])))
    case PushExists =>
      (zk, srv.(pc := pc.(stage := if pc.p in zk.store then Set(zk.store[pc.p].mzxid) else Create)))
    case PushSet(tm, em) =>
      if pc.p in zk.store
      then (zk.Write(pc.p, pc.d, pc.cause),
            Return(Record(cfg, srv, pc.p, |zk.log| + 1, tm, em), pc.p, pc.d, pc.cause, pc.resume))
      else (zk, Return(Record(cfg, srv, pc.p, pc.stage.seen, tm, em), pc.p, pc.d, pc.cause, pc.resume))
    case PushCreate =>
      (if pc.p in zk.store then zk else zk.Write(pc.p, pc.d, pc.cause), srv.(pc := pc.(stage := Get)))
    case PushGet(garbage, tm, em) =>
      var mzxid := if pc.p in zk.store then zk.store[pc.p].mzxid else garbage;
      (zk, Return(Record(cfg, srv, pc.p, mzxid, tm, em), pc.p, pc.d, pc.cause, pc.resume))
    case ClientAdd(p, d, admits) =>
      (zk, srv.(local := LocalAdd(srv.local, p, d, admits), pc := Added(p, d, Client, Done)))
    case Intercept =>
      if pc.p in zk.store && CheckAge(cfg, srv.table, pc.p, zk.store[pc.p].mzxid) <= 0
      then (zk, Return(srv, pc.p, pc.d, pc.cause, pc.resume))
      else (zk, srv.(pc := Push(pc.p, pc.d, Exists, pc.cause, pc.resume)))
    case Fetch(p, tm, em, admits) =>
      if p !in zk.store || CheckAge(cfg, srv.table, p, zk.store[p].mzxid) >= 0 then (zk, srv)
      else
        var d, srv' := zk.store[p].data, Record(cfg, srv, p, zk.store[p].mzxid, tm, em);
        (zk, srv'.(local := LocalAdd(srv.local, p, d, admits),
                   pc := Added(p, d, Apply, if admits && p in srv.local then SecondAdd else Done)))
    case Replace(admits) =>
      // the local node is deleted without replicating that, and the fetched one is added
      (zk, srv.(local := if admits then srv.local[pc.p := pc.d] else srv.local - {pc.p}, replicate := false,
                pc := Added(pc.p, pc.d, pc.cause, Done)))
    case ClientDelete(p) =>
      if !srv.replicate then (zk, srv.(local := srv.local - {p}))
      else if p in zk.store then (zk.Delete(p), srv.(local := srv.local - {p}))
      else (zk, srv)
    case DeleteEvent(p) =>
      (zk, srv.(local := srv.local - {p}, replicate := false))
  }

  // ---------- All servers together ----------

  datatype System = System(zk: Zk, servers: seq<Server>)

  /** Server number s takes one step. */
  datatype Event = Event(s: nat, a: Action)

  /** The path an action brings into play, if it names one. */
  function Names(a: Action): seq<Path> {
    match a
    case ClientWrite(writes) => seq(|writes|, i requires 0 <= i < |writes| => writes[i].0)
    case ClientAdd(p, _, _) => [p]
    case Fetch(p, _, _, _) => [p]
    case ClientDelete(p) => [p]
    case DeleteEvent(p) => [p]
    case _ => []
  }

  /** Tables as they are at run time: some prime of the list is the length, and it is not zero. */
  predicate Runnable(cfg: Config<Path>, srv: Server) {
    cfg.Sound() && srv.table.primeindex < |cfg.primes| && |srv.table.buckets| > 0
  }

  predicate Possible(cfg: Config<Path>, live: set<Path>, sys: System, e: Event) {
    && e.s < |sys.servers|
    && Runnable(cfg, sys.servers[e.s])
    && Enabled(sys.servers[e.s], e.a)
    && forall p :: p in Names(e.a) ==> p in live
  }

  function Next(cfg: Config<Path>, live: set<Path>, sys: System, e: Event): System
    requires Possible(cfg, live, sys, e)
  {
    var (zk, srv) := Step(cfg, sys.zk, sys.servers[e.s], e.a);
    System(zk, sys.servers[e.s := srv])
  }

  /** An empty store, and n servers with empty caches and fresh tables. */
  function Initial(cfg: Config<Path>, n: nat, pindex: nat): System
    requires pindex < |cfg.primes|
  {
    System(Zk(map[], []), seq(n, _ => Server(Table.Create(cfg, pindex), map[], true, Idle)))
  }

  // ---------- Conditions on a step ----------

  /** The path at which the action, taken now, would change the store. */
  function Mutates(zk: Zk, srv: Server, a: Action): Option<Path> {
    match a
    case PushSet(_, _) => if srv.pc.Push? && srv.pc.p in zk.store then Some(srv.pc.p) else None
    case PushCreate => if srv.pc.Push? && srv.pc.p !in zk.store then Some(srv.pc.p) else None
    case ClientDelete(p) => if srv.replicate && p in zk.store then Some(p) else None
    case _ => None
  }

  /** A server that has been told that p does not exist and has not yet read back what it created. */
  predicate Creating(srv: Server, p: Path) {
    srv.pc.Push? && srv.pc.p == p && (srv.pc.stage == Create || srv.pc.stage == Get)
  }

  /** No create is raced: while one server is creating a znode, no other server changes that znode. */
  predicate Unraced(sys: System, e: Event) {
    e.s < |sys.servers| &&
    var m := Mutates(sys.zk, sys.servers[e.s], e.a);
    m.Some? ==> forall s :: 0 <= s < |sys.servers| && s != e.s ==> !Creating(sys.servers[s], m.value)
  }

  predicate Deletes(a: Action) {
    a.ClientDelete? || a.DeleteEvent?
  }

  predicate NothingDeleted(sys: System, e: Event) {
    !Deletes(e.a)
  }

  /** No local add is refused, except of a node that exists. */
  predicate Admitted(a: Action) {
    match a
    case ClientAdd(_, _, admits) => admits
    case Fetch(_, _, _, admits) => admits
    case Replace(admits) => admits
    case _ => true
  }

  /** Nothing is deleted, and no local add is refused, except of a node that exists. */
  predicate Admitting(sys: System, e: Event) {
    !Deletes(e.a) && Admitted(e.a)
  }

  /** The paths a handler still has to deal with after the current one. */
  function Rest(r: Resume): seq<Path> {
    if r.Writes? then r.todo else []
  }

  /** A get that follows a create reads back the data that was pushed, unless the version it reads is not
      recorded, or the node is going to be pushed again. */
  predicate GetsBack(sys: System, e: Event) {
    && e.s < |sys.servers|
    && var pc := sys.servers[e.s].pc;
       pc.Push? && e.a.PushGet? && e.a.em && pc.p !in Rest(pc.resume) ==>
         pc.p in sys.zk.store && sys.zk.store[pc.p].data == pc.d
  }

  predicate ReadsBack(sys: System, e: Event) {
    Admitting(sys, e) && GetsBack(sys, e)
  }

  /** No create is raced and nothing is deleted. */
  predicate Calm(sys: System, e: Event) {
    Unraced(sys, e) && !Deletes(e.a)
  }

  /** Calm, and no local add is refused, except of a node that exists. */
  predicate Smooth(sys: System, e: Event) {
    Unraced(sys, e) && Admitting(sys, e)
  }

  /** Version v of p was written by the v-th change of the store. */
  predicate Logged(zk: Zk, p: Path, v: nat) {
    1 <= v <= |zk.log| && zk.log[v - 1].Put? && zk.log[v - 1].path == p
  }

  /** A get that follows a create, and whose version is recorded, finds the znode, or else leaves in the
      stat a version that the store has given to this path. */
  predicate ReadsLogged(sys: System, e: Event) {
    e.s < |sys.servers| &&
    var pc := sys.servers[e.s].pc;
    pc.Push? && e.a.PushGet? && e.a.em ==> pc.p in sys.zk.store || Logged(sys.zk, pc.p, e.a.garbage)
  }

  /** The events es lead from sys to sys', and each satisfies the condition ok when it happens. */
  ghost predicate Run(cfg: Config<Path>, live: set<Path>, ok: (System, Event) -> bool, sys: System, es: seq<Event>,
                      sys': System)
    decreases |es|
  {
    if es == [] then sys' == sys
    else
      && Possible(cfg, live, sys, es[0])
      && ok(sys, es[0])
      && Run(cfg, live, ok, Next(cfg, live, sys, es[0]), es[1..], sys')
  }

  lemma {:induction false} ServersStay(cfg: Config<Path>, live: set<Path>, ok: (System, Event) -> bool, sys: System,
                                       es: seq<Event>, sys': System)
    requires Run(cfg, live, ok, sys, es, sys')
    ensures |sys'.servers| == |sys.servers|
    decreases |es|
  {
    if es != [] {
      ServersStay(cfg, live, ok, Next(cfg, live, sys, es[0]), es[1..], sys');
    }
  }

  /** Different live paths never share a table key. The equality the servers pass compares a prefix
      that all znode paths share, so this is a condition on the hash. */
  ghost predicate CollisionFree(cfg: Config<Path>, live: set<Path>) {
    && cfg.Sound()
    && (forall p :: p in live ==> cfg.eq(p, p))
    && (forall p, q :: p in live && q in live && cfg.hash(p) == cfg.hash(q) && cfg.eq(p, q) ==> p == q)
  }
}
