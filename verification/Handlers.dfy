/** A server's handlers, undisturbed: what the steps of the protocol come to when no other server
    takes a step in between. */
module Handlers {
  import opened Table
  import opened Protocol

  /** What memory the allocator grants, what an unwritten stat holds, and which adds the library admits, given
      its nodes, if the node does not exist. */
  datatype Luck = Luck(tm: bool, em: bool, garbage: nat, admits: (map<Path, Data>, Path, Data) -> bool)

  /** The step with which a server's handler goes on. */
  function Continues(srv: Server, luck: Luck): Action
    requires !srv.pc.Idle?
  {
    match srv.pc
    case Replacing(p, d, _) => Replace(luck.admits(srv.local - {p}, p, d))
    case Pushing(_) => NextPush
    case Added(_, _, _, _) => Intercept
    case Push(_, _, stage, _, _) =>
      match stage
      case Exists => PushExists
      case Set(_) => PushSet(luck.tm, luck.em)
      case Create => PushCreate
      case Get => PushGet(luck.garbage, luck.tm, luck.em)
  }

  function After(r: Resume): nat {
    match r
    case Done => 0
    case Writes(todo) => 1 + 6 * |todo|
    case SecondAdd => 7
  }

  /** An upper bound on the steps a handler still takes. */
  function Work(pc: Pc): nat {
    match pc
    case Idle => 0
    case Pushing(todo) => 1 + 6 * |todo|
    case Added(_, _, _, r) => 5 + After(r)
    case Replacing(_, _, _) => 6
    case Push(_, _, stage, _, r) => (match stage case Exists => 4 case Create => 3 case _ => 1) + After(r)
  }

  /** A handler's steps, one after the other and undisturbed, until it returns. */
  function Drive(cfg: Config<Path>, zk: Zk, srv: Server, luck: Luck): (Zk, Server)
    decreases Work(srv.pc)
  {
    if srv.pc.Idle? || !Runnable(cfg, srv) then (zk, srv)
    else
      var (zk', srv') := Step(cfg, zk, srv, Continues(srv, luck));
      Drive(cfg, zk', srv', luck)
  }

  lemma StepRunnable(cfg: Config<Path>, zk: Zk, srv: Server, a: Action)
    requires Runnable(cfg, srv) && Enabled(srv, a)
    ensures Runnable(cfg, Step(cfg, zk, srv, a).1)
  {
    hide CheckAge, Insert;
    match a
    case PushSet(tm, em) =>
      InsertRunnable(cfg, srv, srv.pc.p, if srv.pc.p in zk.store then |zk.log| + 1 else srv.pc.stage.seen, tm, em);
    case PushGet(garbage, tm, em) =>
      InsertRunnable(cfg, srv, srv.pc.p, if srv.pc.p in zk.store then zk.store[srv.pc.p].mzxid else garbage, tm, em);
    case Fetch(p, tm, em, _) =>
      if p in zk.store {
        InsertRunnable(cfg, srv, p, zk.store[p].mzxid, tm, em);
      }
    case _ =>
  }

  lemma InsertRunnable(cfg: Config<Path>, srv: Server, p: Path, v: nat, tm: bool, em: bool)
    requires Runnable(cfg, srv)
    ensures Runnable(cfg, Record(cfg, srv, p, v, tm, em))
  {
    hide Rehash;
  }

  lemma DriveOne(cfg: Config<Path>, zk: Zk, srv: Server, luck: Luck)
    requires Runnable(cfg, srv) && !srv.pc.Idle?
    ensures Runnable(cfg, Step(cfg, zk, srv, Continues(srv, luck)).1)
    ensures Drive(cfg, zk, srv, luck) ==
            Drive(cfg, Step(cfg, zk, srv, Continues(srv, luck)).0, Step(cfg, zk, srv, Continues(srv, luck)).1,
                  luck)
  {
    StepRunnable(cfg, zk, srv, Continues(srv, luck));
    hide Step;
  }

  lemma DriveIdle(cfg: Config<Path>, zk: Zk, srv: Server, luck: Luck)
    requires srv.pc.Idle?
    ensures Drive(cfg, zk, srv, luck) == (zk, srv)
  {
  }

  /** A whole push, undisturbed: one change of the store, and its version recorded. */
  lemma DrivePush(cfg: Config<Path>, zk: Zk, srv: Server, luck: Luck)
    requires Runnable(cfg, srv) && srv.pc.Push? && srv.pc.stage == Exists && srv.pc.resume == Done
    ensures Drive(cfg, zk, srv, luck) ==
            (zk.Write(srv.pc.p, srv.pc.d, srv.pc.cause),
             Record(cfg, srv, srv.pc.p, |zk.log| + 1, luck.tm, luck.em).(pc := Idle))
  {
    hide Drive, Insert;
    var pc := srv.pc;
    var zk' := zk.Write(pc.p, pc.d, pc.cause);
    DriveOne(cfg, zk, srv, luck);
    if pc.p in zk.store {
      DriveOne(cfg, zk, srv.(pc := Pc.Push(pc.p, pc.d, Set(zk.store[pc.p].mzxid), pc.cause, Done)), luck);
    } else {
      DriveOne(cfg, zk, srv.(pc := Pc.Push(pc.p, pc.d, Create, pc.cause, Done)), luck);
      DriveOne(cfg, zk', srv.(pc := Pc.Push(pc.p, pc.d, Get, pc.cause, Done)), luck);
    }
    DriveIdle(cfg, zk', Record(cfg, srv, pc.p, |zk.log| + 1, luck.tm, luck.em).(pc := Idle), luck);
  }

  /** The add interceptor, undisturbed. */
  lemma DriveAdded(cfg: Config<Path>, zk: Zk, srv: Server, luck: Luck)
    requires Runnable(cfg, srv) && srv.pc.Added? && srv.pc.resume == Done
    ensures Drive(cfg, zk, srv, luck) ==
            if srv.pc.p in zk.store && CheckAge(cfg, srv.table, srv.pc.p, zk.store[srv.pc.p].mzxid) <= 0
            then (zk, srv.(pc := Idle))
            else Drive(cfg, zk, srv.(pc := Pc.Push(srv.pc.p, srv.pc.d, Exists, srv.pc.cause, Done)), luck)
  {
  }

  /** The local node is deleted without replicating that, and the fetched one is added. */
  lemma DriveReplacing(cfg: Config<Path>, zk: Zk, srv: Server, luck: Luck)
    requires Runnable(cfg, srv) && srv.pc.Replacing?
    ensures var p, d, deleted := srv.pc.p, srv.pc.d, srv.local - {srv.pc.p};
            Drive(cfg, zk, srv, luck) ==
            Drive(cfg, zk, srv.(local := if luck.admits(deleted, p, d) then srv.local[p := d] else deleted,
                                replicate := false, pc := Added(p, d, srv.pc.cause, Done)), luck)
  {
    hide Drive, Insert, CheckAge;
    DriveOne(cfg, zk, srv, luck);
  }

  function FetchBy(zk: Zk, srv: Server, p: Path, luck: Luck): Action {
    Fetch(p, luck.tm, luck.em, p in zk.store && luck.admits(srv.local, p, zk.store[p].data))
  }

  /** What a client asks an idle server for, and all that its handler does until it returns, undisturbed. */
  function Requested(cfg: Config<Path>, zk: Zk, srv: Server, a: Action, luck: Luck): (Zk, Server) {
    if !Runnable(cfg, srv) || !Enabled(srv, a) then (zk, srv)
    else
      var (zk', srv') := Step(cfg, zk, srv, a);
      Drive(cfg, zk', srv', luck)
  }

  /** A client's add runs as the library's add and then the interceptor. */
  lemma AddRequested(cfg: Config<Path>, zk: Zk, srv: Server, p: Path, d: Data, admits: bool, luck: Luck)
    requires Runnable(cfg, srv) && srv.pc.Idle?
    ensures Requested(cfg, zk, srv, ClientAdd(p, d, admits), luck) ==
            Drive(cfg, zk, srv.(local := LocalAdd(srv.local, p, d, admits), pc := Added(p, d, Client, Done)), luck)
  {
    hide Drive;
  }

  /** A client's write request runs as all local writes and then the pushes. */
  lemma WriteRequested(cfg: Config<Path>, zk: Zk, srv: Server, writes: seq<(Path, Data)>, luck: Luck)
    requires Runnable(cfg, srv) && srv.pc.Idle?
    ensures Requested(cfg, zk, srv, ClientWrite(writes), luck) ==
            Drive(cfg, zk, srv.(local := LocalWrites(srv.local, writes), pc := Pushing(Written(srv.local, writes))),
                  luck)
  {
    hide Drive;
  }

  /** A fetch of p and all that its handler does until it returns, undisturbed. */
  function Fetching(cfg: Config<Path>, zk: Zk, srv: Server, p: Path, luck: Luck): (Zk, Server) {
    if !srv.pc.Idle? || !Runnable(cfg, srv) then (zk, srv)
    else
      var (zk', srv') := Step(cfg, zk, srv, FetchBy(zk, srv, p, luck));
      Drive(cfg, zk', srv', luck)
  }

  lemma FetchCases(cfg: Config<Path>, zk: Zk, srv: Server, p: Path, luck: Luck)
    requires Runnable(cfg, srv) && srv.pc.Idle?
    ensures Fetching(cfg, zk, srv, p, luck) ==
            if p !in zk.store || CheckAge(cfg, srv.table, p, zk.store[p].mzxid) >= 0 then (zk, srv)
            else
              var d := zk.store[p].data;
              var admits := luck.admits(srv.local, p, d);
              Drive(cfg, zk, Record(cfg, srv, p, zk.store[p].mzxid, luck.tm, luck.em)
                               .(local := LocalAdd(srv.local, p, d, admits),
                                 pc := Added(p, d, Apply, if admits && p in srv.local then SecondAdd else Done)),
                         luck)
  {
  }

  /** The same handler position with another continuation. */
  function Resuming(pc: Pc, r: Resume): Pc
    requires pc.Push? || pc.Added?
  {
    match pc
    case Push(p, d, stage, cause, _) => Pc.Push(p, d, stage, cause, r)
    case Added(p, d, cause, _) => Added(p, d, cause, r)
  }

  /** A step takes a handler that does something else once it returns to where it takes one that is done
      then, or lets it return. */
  lemma StepResumes(cfg: Config<Path>, zk: Zk, srv: Server, luck: Luck, r: Resume)
    requires Runnable(cfg, srv) && (srv.pc.Push? || srv.pc.Added?) && srv.pc.resume == Done
    ensures var pc := srv.pc;
            var (zk1, srv1) := Step(cfg, zk, srv, Continues(srv, luck));
            && (!srv1.pc.Idle? ==> srv1.pc.Push? || srv1.pc.Added?)
            && Continues(srv.(pc := Resuming(pc, r)), luck) == Continues(srv, luck)
            && Enabled(srv.(pc := Resuming(pc, r)), Continues(srv, luck))
            && Step(cfg, zk, srv.(pc := Resuming(pc, r)), Continues(srv, luck)) ==
               (zk1, if srv1.pc.Idle? then Return(srv1, pc.p, pc.d, pc.cause, r) else srv1.(pc := Resuming(srv1.pc, r)))
  {
    hide Insert, CheckAge, Runnable;
    StepStaysWithNode(cfg, zk, srv, luck);
    RunnableAnyPc(cfg, srv, Resuming(srv.pc, r));
  }

  /** Until a push or an add returns, it stays with its node. */
  lemma StepStaysWithNode(cfg: Config<Path>, zk: Zk, srv: Server, luck: Luck)
    requires Runnable(cfg, srv) && (srv.pc.Push? || srv.pc.Added?) && srv.pc.resume == Done
    ensures var pc := srv.pc;
            var (_, srv1) := Step(cfg, zk, srv, Continues(srv, luck));
            && Runnable(cfg, srv1)
            && (!srv1.pc.Idle? ==>
                  && (srv1.pc.Push? || srv1.pc.Added?) && srv1.pc.resume == Done && Work(srv1.pc) < Work(pc)
                  && srv1.pc.p == pc.p && srv1.pc.d == pc.d && srv1.pc.cause == pc.cause)
  {
    hide Insert, CheckAge;
    StepRunnable(cfg, zk, srv, Continues(srv, luck));
  }

  /** A push or an add that has a continuation runs as if it had none, and then continues. */
  lemma {:induction false} ContinueLater(cfg: Config<Path>, zk: Zk, srv: Server, luck: Luck, r: Resume)
    requires Runnable(cfg, srv) && (srv.pc.Push? || srv.pc.Added?) && srv.pc.resume == Done
    ensures var (zk', srv') := Drive(cfg, zk, srv, luck);
            && Runnable(cfg, srv') && srv'.pc.Idle?
            && Drive(cfg, zk, srv.(pc := Resuming(srv.pc, r)), luck) ==
               Drive(cfg, zk', Return(srv', srv.pc.p, srv.pc.d, srv.pc.cause, r), luck)
    decreases Work(srv.pc)
  {
    hide Drive, Step, Insert, CheckAge;
    var a := Continues(srv, luck);
    var (zk1, srv1) := Step(cfg, zk, srv, a);
    StepResumes(cfg, zk, srv, luck, r);
    StepStaysWithNode(cfg, zk, srv, luck);
    DriveOne(cfg, zk, srv, luck);
    RunnableAnyPc(cfg, srv, Resuming(srv.pc, r));
    DriveOne(cfg, zk, srv.(pc := Resuming(srv.pc, r)), luck);
    if srv1.pc.Idle? {
      DriveIdle(cfg, zk1, srv1, luck);
    } else {
      ContinueLater(cfg, zk1, srv1, luck, r);
    }
  }

  /** The next node of a write request is pushed, and then the rest of them. */
  lemma DriveNextPush(cfg: Config<Path>, zk: Zk, srv: Server, luck: Luck)
    requires Runnable(cfg, srv) && srv.pc.Pushing? && srv.pc.todo != [] && srv.pc.todo[0] in srv.local
    ensures var p, rest := srv.pc.todo[0], srv.pc.todo[1..];
            var (zk', srv') := Drive(cfg, zk, srv.(pc := Pc.Push(p, srv.local[p], Exists, Client, Done)), luck);
            Drive(cfg, zk, srv, luck) == Drive(cfg, zk', srv'.(pc := Pushing(rest)), luck)
  {
    hide Drive;
    var p, rest := srv.pc.todo[0], srv.pc.todo[1..];
    DriveOne(cfg, zk, srv, luck);
    ContinueLater(cfg, zk, srv.(pc := Pc.Push(p, srv.local[p], Exists, Client, Done)), luck, Writes(rest));
  }

  /** A write request of which nothing is left to push. */
  lemma DriveNone(cfg: Config<Path>, zk: Zk, srv: Server, luck: Luck)
    requires Runnable(cfg, srv) && srv.pc == Pushing([])
    ensures Drive(cfg, zk, srv, luck) == (zk, srv.(pc := Idle))
  {
    hide Drive;
    DriveOne(cfg, zk, srv, luck);
    DriveIdle(cfg, zk, srv.(pc := Idle), luck);
  }

  /** A write request, undisturbed, makes one change of the store for each node it has to push: afterwards the
      store holds what the server holds for these nodes, and is as before elsewhere. */
  lemma {:induction false} DrivePushing(cfg: Config<Path>, zk: Zk, srv: Server, luck: Luck)
    requires Runnable(cfg, srv) && srv.pc.Pushing? && forall p :: p in srv.pc.todo ==> p in srv.local
    ensures var (zk', srv') := Drive(cfg, zk, srv, luck);
            && srv'.pc.Idle? && srv'.local == srv.local && |zk'.log| == |zk.log| + |srv.pc.todo|
            && (forall p :: p in srv.pc.todo ==> p in zk'.store && zk'.store[p].data == srv.local[p])
            && (forall p :: p !in srv.pc.todo ==>
                  (p in zk'.store <==> p in zk.store) && (p in zk.store ==> zk'.store[p] == zk.store[p]))
    decreases |srv.pc.todo|
  {
    hide Drive, Insert;
    if srv.pc.todo == [] {
      DriveNone(cfg, zk, srv, luck);
    } else {
      var p, rest := srv.pc.todo[0], srv.pc.todo[1..];
      assert p in srv.pc.todo && forall q :: q in srv.pc.todo <==> q == p || q in rest;
      var push := srv.(pc := Pc.Push(p, srv.local[p], Exists, Client, Done));
      DriveNextPush(cfg, zk, srv, luck);
      DrivePush(cfg, zk, push, luck);
      var v := |zk.log| + 1;
      InsertRunnable(cfg, srv, p, v, luck.tm, luck.em);
      DrivePushing(cfg, zk.Write(p, srv.local[p], Client),
                   Record(cfg, srv, p, v, luck.tm, luck.em).(pc := Pushing(rest)), luck);
    }
  }

  lemma RunnableAnyPc(cfg: Config<Path>, srv: Server, pc: Pc)
    requires Runnable(cfg, srv)
    ensures Runnable(cfg, srv.(pc := pc))
  {
  }

  /** The loop over the children of the address space: fetch each in turn. */
  function FetchEach(cfg: Config<Path>, zk: Zk, srv: Server, ps: seq<Path>, luck: Luck): (Zk, Server)
    decreases |ps|
  {
    if ps == [] then (zk, srv)
    else
      var (zk', srv') := Fetching(cfg, zk, srv, ps[0], luck);
      FetchEach(cfg, zk', srv', ps[1..], luck)
  }

  lemma {:induction false} WrittenSame(local: map<Path, Data>, local': map<Path, Data>, writes: seq<(Path, Data)>)
    requires local.Keys == local'.Keys
    ensures Written(local, writes) == Written(local', writes)
    decreases |writes|
  {
    if writes != [] {
      WrittenSame(local, local', writes[1..]);
    }
  }

  lemma WrittenNone(local: map<Path, Data>, writes: seq<(Path, Data)>)
    requires writes == []
    ensures Written(local, writes) == []
  {
  }

  lemma {:induction false} WrittenAt(local: map<Path, Data>, writes: seq<(Path, Data)>)
    ensures forall i :: 0 <= i < |writes| && writes[i].0 in local ==> writes[i].0 in Written(local, writes)
    ensures forall p :: p in Written(local, writes) ==> exists i :: 0 <= i < |writes| && writes[i].0 == p
    decreases |writes|
  {
    if writes != [] {
      WrittenAt(local, writes[1..]);
      forall i | 0 <= i < |writes| && writes[i].0 in local
        ensures writes[i].0 in Written(local, writes)
      {
        assert i > 0 ==> writes[1..][i - 1] == writes[i];
      }
      forall p | p in Written(local, writes)
        ensures exists i :: 0 <= i < |writes| && writes[i].0 == p
      {
        if p in Written(local, writes[1..]) {
          var i :| 0 <= i < |writes[1..]| && writes[1..][i].0 == p;
          assert writes[i + 1].0 == p;
        } else {
          assert writes[0].0 == p;
        }
      }
    }
  }

  /** After a write request, undisturbed, the store holds what the server holds for each node that was written,
      and is as before at paths that the request does not name. */
  lemma RequestPushed(cfg: Config<Path>, zk: Zk, srv: Server, writes: seq<(Path, Data)>, luck: Luck)
    requires Runnable(cfg, srv) && srv.pc == Pushing(Written(srv.local, writes))
    ensures var zk' := Drive(cfg, zk, srv, luck).0;
            && (forall i :: 0 <= i < |writes| && writes[i].0 in srv.local ==>
                  writes[i].0 in zk'.store && zk'.store[writes[i].0].data == srv.local[writes[i].0])
            && (forall p :: p in zk.store && (forall i :: 0 <= i < |writes| ==> writes[i].0 != p) ==>
                  p in zk'.store && zk'.store[p] == zk.store[p])
  {
    hide Drive, Written;
    WrittenAt(srv.local, writes);
    DrivePushing(cfg, zk, srv, luck);
  }

  lemma WrittenNext(local: map<Path, Data>, writes: seq<(Path, Data)>, i: nat)
    requires i < |writes|
    ensures writes[i].0 in local ==>
              Written(local, writes[i..]) != [] && Written(local, writes[i..])[0] == writes[i].0 &&
              Written(local, writes[i..])[1..] == Written(local, writes[i + 1..])
    ensures writes[i].0 !in local ==> Written(local, writes[i..]) == Written(local, writes[i + 1..])
  {
  }
}
