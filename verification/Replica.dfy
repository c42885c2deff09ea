/** The handlers of one server as it runs them: a class over its node cache and its hash table.
    Each handler, left undisturbed, does exactly what the steps of the protocol do. */
module Replicas {
  import opened Sequences
  import opened Table
  import opened HashTables
  import opened Protocol
  import opened Handlers
  import opened Versions
  import opened Coherence
  import opened Convergence
  import ApplyOrder
  import Paths

  // ---------- The store, as one client sees it ----------

  class ZooKeeper {
    var zk: Zk

    constructor ()
      ensures zk == Zk(map[], [])
    {
      zk := Zk(map[], []);
    }

    /** zoo_exists: the mzxid in the stat, or nothing when there is no such znode. */
    method Exists(p: Path) returns (stat: Option<nat>)
      ensures stat == if p in zk.store then Some(zk.store[p].mzxid) else None
    {
      stat := if p in zk.store then Some(zk.store[p].mzxid) else None;
    }

    /** zoo_get */
    method Get(p: Path) returns (r: Option<Znode>)
      ensures r == if p in zk.store then Some(zk.store[p]) else None
    {
      r := if p in zk.store then Some(zk.store[p]) else None;
    }

    /** zoo_set2: the new data and a new mzxid, in the stat too; without a znode the stat stays as it was. */
    method Set2(p: Path, d: Data, cause: Cause, stat: nat) returns (stat': nat)
      modifies this
      ensures p in old(zk).store ==> zk == old(zk).Write(p, d, cause) && p in zk.store && stat' == zk.store[p].mzxid
      ensures p !in old(zk).store ==> zk == old(zk) && stat' == stat
    {
      stat' := stat;
      if p in zk.store {
        zk := zk.Write(p, d, cause);
        stat' := zk.store[p].mzxid;
      }
    }

    /** zoo_create */
    method Create(p: Path, d: Data, cause: Cause) returns (ok: bool)
      modifies this
      ensures ok == (p !in old(zk).store)
      ensures zk == if ok then old(zk).Write(p, d, cause) else old(zk)
    {
      ok := p !in zk.store;
      if ok {
        zk := zk.Write(p, d, cause);
      }
    }

    /** zoo_delete */
    method Delete(p: Path) returns (ok: bool)
      modifies this
      ensures ok == (p in old(zk).store)
      ensures zk == if ok then old(zk).Delete(p) else old(zk)
    {
      ok := p in zk.store;
      if ok {
        zk := zk.Delete(p);
      }
    }
  }

  /** What the library answers to an add: that it was made, that the node exists, or another error. */
  datatype AddStatus = Good | NodeIdExists | Refused

  /** What a server's reaction to an event comes to, if it is undisturbed. */
  function Obeying(cfg: Config<Path>, zk: Zk, srv: Server, command: Paths.Command, addressSpace: Path,
                   sorted: seq<string>, luck: Luck): (Zk, Server) {
    if !srv.pc.Idle? || !Runnable(cfg, srv) then (zk, srv)
    else
      match command
      case DeleteNode(n) => Step(cfg, zk, srv, DeleteEvent(Paths.Path(addressSpace, n)))
      case FetchNode(path) => Fetching(cfg, zk, srv, path, luck)
      case FetchAll(parent) => FetchEach(cfg, zk, srv, ApplyOrder.Under(parent, sorted), luck)
      case _ => (zk, srv)
  }

  /** The path of a deleted znode is the path of the node that is deleted. */
  lemma DeletedPath(addressSpace: Path, path: Path)
    ensures forall n :: Paths.Clean(addressSpace) && Paths.Stored(n) && path == Paths.Path(addressSpace, n) ==>
              Paths.ReadNodeId(path) == Some(n) && path != ""
  {
    hide Paths.ReadNodeId;
    forall n | Paths.Clean(addressSpace) && Paths.Stored(n) && path == Paths.Path(addressSpace, n)
      ensures Paths.ReadNodeId(path) == Some(n) && path != ""
    {
      Paths.ReadClean(addressSpace, n);
    }
  }

  lemma ChangedIsFetched(cfg: Config<Path>, live: set<Path>, zk: Zk, srv: Server, p: Path, luck: Luck)
    requires CollisionFree(cfg, live) && StoreOk(zk) && ServerOk(cfg, live, zk, srv) && Fresh(zk, srv)
    requires srv.pc.Idle? && p in live && p in zk.store && AdmitsAll(luck.admits)
    ensures Fetching(cfg, zk, srv, p, luck).0 == zk
    ensures Fetching(cfg, zk, srv, p, luck).1.local == srv.local[p := zk.store[p].data]
  {
    hide Fetching, StoreOk, ServerOk, Fresh, CollisionFree;
    FetchBringsUpToDate(cfg, live, zk, srv, p, luck);
  }

  lemma ChildrenAreFetched(cfg: Config<Path>, live: set<Path>, zk: Zk, srv: Server, parent: Path,
                           strings: seq<string>, sorted: seq<string>, luck: Luck)
    requires CollisionFree(cfg, live) && StoreOk(zk) && ServerOk(cfg, live, zk, srv) && Fresh(zk, srv)
    requires srv.pc.Idle? && Listed(live, zk, ApplyOrder.Under(parent, strings)) && AdmitsAll(luck.admits)
    requires multiset(sorted) == multiset(strings)
    ensures var (zk', srv') := FetchEach(cfg, zk, srv, ApplyOrder.Under(parent, sorted), luck);
            && zk' == zk
            && (forall name :: name in strings ==>
                  var p := parent + "/" + name;
                  p in zk.store && p in srv'.local && srv'.local[p] == zk.store[p].data)
            && forall p :: p !in ApplyOrder.Under(parent, strings) ==>
                 (p in srv'.local <==> p in srv.local) && (p in srv'.local ==> srv'.local[p] == srv.local[p])
  {
    hide FetchEach, StoreOk, ServerOk, Fresh, CollisionFree, AdmitsAll;
    var ps := ApplyOrder.Under(parent, sorted);
    SameUnder(parent, strings, sorted);
    UnderIn(parent, strings);
    FetchEachConverges(cfg, live, zk, srv, ps, luck);
    var srv' := FetchEach(cfg, zk, srv, ps, luck).1;
    forall p
      ensures p in ps ==> p in srv'.local && srv'.local[p] == zk.store[p].data
      ensures p !in ps ==> (p in srv'.local <==> p in srv.local) && (p in srv'.local ==> srv'.local[p] == srv.local[p])
    {
      assert LocalAt(srv', p) == if p in ps && p in zk.store then Some(zk.store[p].data) else LocalAt(srv, p);
    }
  }

  lemma SameUnder(parent: Path, strings: seq<string>, sorted: seq<string>)
    requires multiset(sorted) == multiset(strings)
    ensures forall p :: p in ApplyOrder.Under(parent, sorted) <==> p in ApplyOrder.Under(parent, strings)
  {
    UnderWithin(parent, strings, sorted);
    UnderWithin(parent, sorted, strings);
  }

  lemma UnderWithin(parent: Path, strings: seq<string>, sorted: seq<string>)
    requires multiset(sorted) == multiset(strings)
    ensures forall p :: p in ApplyOrder.Under(parent, sorted) ==> p in ApplyOrder.Under(parent, strings)
  {
    var ps := ApplyOrder.Under(parent, sorted);
    forall p | p in ps
      ensures p in ApplyOrder.Under(parent, strings)
    {
      var i :| 0 <= i < |ps| && ps[i] == p;
      assert sorted[i] in multiset(strings);
      UnderIn(parent, strings);
    }
  }

  lemma UnderIn(parent: Path, names: seq<string>)
    ensures forall name :: name in names ==> parent + "/" + name in ApplyOrder.Under(parent, names)
  {
    var ps := ApplyOrder.Under(parent, names);
    forall name | name in names
      ensures parent + "/" + name in ps
    {
      var i :| 0 <= i < |names| && names[i] == name;
      assert ps[i] == parent + "/" + name;
    }
  }

  // ---------- One server ----------

  class Replica {
    const zookeeper: ZooKeeper
    const nodeMzxid: HashTable<Path, nat>
    var local: map<Path, Data>
    var replicateNode: bool

    ghost predicate Valid()
      reads this, nodeMzxid, nodeMzxid.table, nodeMzxid.nodes
      ensures Valid() ==>
                nodeMzxid.Valid() && forall pc ::
                    Runnable(nodeMzxid.cfg, Server(nodeMzxid.Model(), local, replicateNode, pc))
    {
      nodeMzxid.Valid()
    }

    /** This server in the protocol, with its handler at pc. */
    ghost function At(pc: Pc): Server
      reads this, nodeMzxid
    {
      Server(nodeMzxid.Model(), local, replicateNode, pc)
    }

    ghost function Frame(): set<object>
      reads this, nodeMzxid
    {
      {nodeMzxid, nodeMzxid.table} + nodeMzxid.nodes
    }

    constructor (zookeeper: ZooKeeper, cfg: Config<Path>)
      requires cfg.Sound() && exists p :: 0 <= p < |cfg.primes| && cfg.primes[p] > 16
      ensures Valid() && this.zookeeper == zookeeper && nodeMzxid.cfg == cfg && fresh(Frame())
      ensures nodeMzxid.primeindex < |cfg.primes|
              && At(Idle) == Server(Table.Create(cfg, nodeMzxid.primeindex), map[], true, Idle)
    {
      this.zookeeper := zookeeper;
      nodeMzxid := new HashTable(cfg, 16);
      local := map[];
      replicateNode := true;
    }

    /** zkUA_checkMzxidAge */
    method CheckMzxidAge(p: Path, mzxid: nat) returns (r: int)
      requires Valid()
      ensures r == CheckAge(nodeMzxid.cfg, nodeMzxid.Model(), p, mzxid)
    {
      var val := nodeMzxid.Search(p);
      if val.Some? {
        if val.value > mzxid {
          return 1;
        }
        if val.value == mzxid {
          return 0;
        }
      }
      return -1;
    }

    /** zkUA_insertMzxidAge: the result is whether the version was recorded. */
    method InsertMzxidAge(p: Path, mzxid: nat, luck: Luck) returns (good: bool)
      requires Valid()
      modifies Frame()
      ensures Valid() && fresh(Frame() - old(Frame())) && local == old(local) && replicateNode == old(replicateNode)
      ensures good == luck.em
      ensures nodeMzxid.Model() == Insert(nodeMzxid.cfg, old(nodeMzxid.Model()), p, mzxid, luck.tm, luck.em)
    {
      var r := nodeMzxid.Insert(p, mzxid, luck.tm, luck.em);
      return r != 0;
    }

    /** zkUA_UA_Server_replicateNode: push the node, setting the znode if it exists and creating it if not. */
    method ReplicateNode(p: Path, d: Data, cause: Cause, luck: Luck)
      requires Valid()
      modifies zookeeper, Frame()
      ensures Valid() && fresh(Frame() - old(Frame())) && local == old(local) && replicateNode == old(replicateNode)
      ensures (zookeeper.zk, At(Idle)) ==
          Drive(nodeMzxid.cfg, old(zookeeper.zk), old(At(Push(p, d, Exists, cause, Done))), luck)
      ensures zookeeper.zk == old(zookeeper.zk).Write(p, d, cause)
    {
      hide Drive, Insert, HashTable<Path, nat>.Valid, Table.Valid, Shaped;
      DrivePush(nodeMzxid.cfg, zookeeper.zk, At(Push(p, d, Exists, cause, Done)), luck);
      var stat := zookeeper.Exists(p);
      if stat.Some? {
        var mzxid := zookeeper.Set2(p, d, cause, stat.value);
        var _ := InsertMzxidAge(p, mzxid, luck);
      } else {
        var _ := zookeeper.Create(p, d, cause);
        var r := zookeeper.Get(p);
        var _ := InsertMzxidAge(p, r.value.mzxid, luck);
      }
    }

    /** The library's add service: it refuses a node that exists, and any other as it sees fit. */
    method AddLocally(p: Path, d: Data, admits: bool) returns (status: AddStatus)
      modifies this`local
      ensures status == (if !admits then Refused else if p in old(local) then NodeIdExists else Good)
      ensures local == if status == Good then old(local)[p := d] else old(local)
      ensures local == LocalAdd(old(local), p, d, admits)
    {
      if !admits {
        return Refused;
      }
      if p in local {
        return NodeIdExists;
      }
      local := local[p := d];
      return Good;
    }

    /** zkUA_Service_AddNodes_single: add locally, then push unless the znode is there and not older than
        what this server recorded. What the local add came to is not looked at, only handed on. */
    method AddNodesSingle(p: Path, d: Data, cause: Cause, admits: bool, luck: Luck) returns (status: AddStatus)
      requires Valid()
      modifies this, zookeeper, Frame()
      ensures Valid() && fresh(Frame() - old(Frame()))
      ensures status == if !admits then Refused else if p in old(local) then NodeIdExists else Good
      ensures (zookeeper.zk, At(Idle)) ==
              Drive(nodeMzxid.cfg, old(zookeeper.zk),
                    old(At(Added(p, d, cause, Done))).(local := LocalAdd(old(local), p, d, admits)), luck)
      ensures local == if status == Good then old(local)[p := d] else old(local)
      ensures p !in old(zookeeper.zk).store ==> zookeeper.zk == old(zookeeper.zk).Write(p, d, cause)
    {
      hide LocalAdd, Drive, Insert, CheckAge, HashTable<Path, nat>.Valid, Table.Valid, Shaped;
      status := AddLocally(p, d, admits);
      assert Valid();
      DriveAdded(nodeMzxid.cfg, zookeeper.zk, At(Added(p, d, cause, Done)), luck);
      var r := zookeeper.Get(p);
      if r.Some? {
        var mzxidFresher := CheckMzxidAge(p, r.value.mzxid);
        if mzxidFresher <= 0 {
          return;
        }
      }
      ReplicateNode(p, d, cause, luck);
    }

    /** zkUA_Service_DeleteNodes_single: with the flag up, delete the znode first, and the local node only
        if that succeeds. */
    method DeleteNodesSingle(p: Path) returns (good: bool)
      requires Valid()
      modifies this`local, zookeeper
      ensures Valid() && good == (!replicateNode || p in old(zookeeper.zk.store))
      ensures (zookeeper.zk, At(Idle)) == Step(nodeMzxid.cfg, old(zookeeper.zk), old(At(Idle)), ClientDelete(p))
    {
      hide HashTable<Path, nat>.Valid, Insert, CheckAge, LocalAdd, LocalWrites;
      if replicateNode {
        var ok := zookeeper.Delete(p);
        if !ok {
          return false;
        }
      }
      local := local - {p};
      return true;
    }

    /** zkUA_UA_Server_deleteNode_dontReplicate. The flag stays down: the statement that would raise it
        again follows a return. */
    method DeleteNodeDontReplicate(p: Path)
      requires Valid()
      modifies this`local, this`replicateNode, zookeeper
      ensures Valid() && zookeeper.zk == old(zookeeper.zk) && local == old(local) - {p} && !replicateNode
      ensures (zookeeper.zk, At(Idle)) == Step(nodeMzxid.cfg, old(zookeeper.zk), old(At(Idle)), DeleteEvent(p))
    {
      hide HashTable<Path, nat>.Valid, Insert, CheckAge, LocalAdd, LocalWrites;
      replicateNode := false;
      var _ := DeleteNodesSingle(p);
    }

    /** zkUA_jsonDecode_zkNodeToUa for a node outside namespace 0: add it, and if it exists delete the
        local node and add it again. Any other failure, of the first add or of the second, is only printed. */
    method ZkNodeToUa(p: Path, d: Data, luck: Luck)
      requires Valid()
      modifies this, zookeeper, Frame()
      ensures Valid() && fresh(Frame() - old(Frame()))
      ensures var admits := luck.admits(old(local), p, d);
              (zookeeper.zk, At(Idle)) ==
              Drive(nodeMzxid.cfg, old(zookeeper.zk),
                    old(At(Added(p, d, Apply, if admits && p in local then SecondAdd else Done)))
                      .(local := LocalAdd(old(local), p, d, admits)),
                    luck)
    {
      hide Drive, Insert, HashTable<Path, nat>.Valid, Table.Valid, Shaped;
      var admits := luck.admits(local, p, d);
      ghost var cfg, zk0, s0 := nodeMzxid.cfg, zookeeper.zk,
          At(Added(p, d, Apply, Done)).(local := LocalAdd(local, p, d, admits));
      var status := AddNodesSingle(p, d, Apply, admits, luck);
      if status == NodeIdExists {
        ContinueLater(cfg, zk0, s0, luck, SecondAdd);
        DriveReplacing(cfg, zookeeper.zk, At(Replacing(p, d, Apply)), luck);
        ghost var held := local;
        DeleteNodeDontReplicate(p);
        assert (held - {p})[p := d] == held[p := d];
        var _ := AddNodesSingle(p, d, Apply, luck.admits(local, p, d), luck);
      }
    }

    /** zkUA_jsonDecode_zkNode: fetch a node, unless the server's record is as fresh as the store. */
    method JsonDecodeZkNode(p: Path, luck: Luck) returns (good: bool)
      requires Valid()
      modifies this, zookeeper, Frame()
      ensures Valid() && fresh(Frame() - old(Frame()))
      ensures good == (p in old(zookeeper.zk.store))
      ensures (zookeeper.zk, At(Idle)) == Fetching(nodeMzxid.cfg, old(zookeeper.zk), old(At(Idle)), p, luck)
    {
      hide Drive, Fetching, Insert, CheckAge, HashTable<Path, nat>.Valid, Table.Valid, Shaped;
      FetchCases(nodeMzxid.cfg, zookeeper.zk, At(Idle), p, luck);
      var r := zookeeper.Get(p);
      if r == None {
        return false;
      }
      var mzxidFresher := CheckMzxidAge(p, r.value.mzxid);
      if mzxidFresher >= 0 {
        return true;
      }
      var _ := InsertMzxidAge(p, r.value.mzxid, luck);
      ZkNodeToUa(p, r.value.data, luck);
      return true;
    }

    /** zkUA_UA_Server_replicateZk_getNodes: sort the children by namespace index and identifier, and fetch
        each of them. */
    method ReplicateZkGetNodes(parent: Path, strings: seq<string>, luck: Luck) returns (ghost sorted: seq<string>)
      requires Valid() && ApplyOrder.Readable(strings)
      modifies this, zookeeper, Frame()
      ensures Valid() && fresh(Frame() - old(Frame()))
      ensures ApplyOrder.Sorted(sorted) && multiset(sorted) == multiset(strings)
      ensures (zookeeper.zk, At(Idle)) ==
              FetchEach(nodeMzxid.cfg, old(zookeeper.zk), old(At(Idle)), ApplyOrder.Under(parent, sorted), luck)
    {
      hide Fetching, HashTable<Path, nat>.Valid, Table.Valid, Shaped, ApplyOrder.Sorted;
      var children := ApplyOrder.Sort(strings);
      sorted := children;
      ghost var ps := ApplyOrder.Under(parent, sorted);
      assert ps[0..] == ps;
      for i := 0 to |children|
        invariant Valid() && fresh(Frame() - old(Frame()))
        invariant FetchEach(nodeMzxid.cfg, zookeeper.zk, At(Idle), ps[i..], luck) ==
                  FetchEach(nodeMzxid.cfg, old(zookeeper.zk), old(At(Idle)), ps, luck)
      {
        assert ps[i..][0] == ps[i] && ps[i..][1..] == ps[i + 1..];
        var _ := JsonDecodeZkNode(parent + "/" + children[i], luck);
      }
    }

    /** No handler is running, the records are true, and no live paths collide. */
    ghost predicate UpToDate(live: set<Path>)
      reads this, zookeeper, nodeMzxid, nodeMzxid.table, nodeMzxid.nodes
    {
      && CollisionFree(nodeMzxid.cfg, live) && StoreOk(zookeeper.zk)
      && ServerOk(nodeMzxid.cfg, live, zookeeper.zk, At(Idle)) && Fresh(zookeeper.zk, At(Idle))
    }

    /** zkUA_addressSpaceWatcher: delete the node that a deleted path stands for, fetch a changed one, and
        fetch all children when there are others than before. The events are those of ZooKeeper: 2 says that a
        znode was deleted, 3 that it was changed, 4 that its children are others. */
    method AddressSpaceWatcher(event: int, path: Path, addressSpace: Path, strings: seq<string>, luck: Luck,
                               ghost live: set<Path>)
      returns (ghost sorted: seq<string>)
      requires Valid() && Paths.Dispatch(event, path, addressSpace) != Paths.Undefined && ApplyOrder.Readable(strings)
      modifies this, zookeeper, Frame()
      ensures Valid() && fresh(Frame() - old(Frame()))
      ensures Paths.Dispatch(event, path, addressSpace).FetchAll? ==>
                ApplyOrder.Sorted(sorted) && multiset(sorted) == multiset(strings)
      ensures (zookeeper.zk, At(Idle)) ==
              Obeying(nodeMzxid.cfg, old(zookeeper.zk), old(At(Idle)), Paths.Dispatch(event, path, addressSpace),
                      addressSpace, sorted, luck)
      ensures forall n :: event == 2 && Paths.Clean(addressSpace) && Paths.Stored(n)
                          && path == Paths.Path(addressSpace, n) ==>
                local == old(local) - {path} && !replicateNode && zookeeper.zk == old(zookeeper.zk)
      ensures event == 3 && old(UpToDate(live)) && path != "" && path in live && path in old(zookeeper.zk.store)
              && AdmitsAll(luck.admits) ==>
                && zookeeper.zk == old(zookeeper.zk)
                && local == old(local)[path := old(zookeeper.zk).store[path].data]
      ensures event == 4 && old(UpToDate(live)) && path != "" && AdmitsAll(luck.admits)
              && (forall name :: name in strings ==>
                    addressSpace + "/" + name in live && addressSpace + "/" + name in old(zookeeper.zk.store)) ==>
                && zookeeper.zk == old(zookeeper.zk)
                && (forall name :: name in strings ==>
                      var p := addressSpace + "/" + name;
                      p in local && local[p] == old(zookeeper.zk).store[p].data)
                && forall p :: p !in ApplyOrder.Under(addressSpace, strings) ==>
                     (p in local <==> p in old(local)) && (p in local ==> local[p] == old(local)[p])
      ensures !(2 <= event <= 4) || path == "" ==>
                zookeeper.zk == old(zookeeper.zk) && local == old(local) && replicateNode == old(replicateNode)
    {
      hide Fetching, FetchEach, Step, Paths.ReadNodeId, Paths.Path, HashTable<Path, nat>.Valid, Table.Valid, Shaped,
           ApplyOrder.Sorted, CollisionFree, StoreOk, ServerOk, Fresh, AdmitsAll, Restored;
      sorted := strings;
      ghost var zk, srv, cfg := zookeeper.zk, At(Idle), nodeMzxid.cfg;
      ghost var upToDate := UpToDate(live) && AdmitsAll(luck.admits);
      DeletedPath(addressSpace, path);
      if |path| > 0 {
        if event == Paths.ZOO_DELETED_EVENT {
          DeleteNodeDontReplicate(Paths.Path(addressSpace, Paths.ReadNodeId(path).value));
        } else if event == Paths.ZOO_CHANGED_EVENT {
          var _ := JsonDecodeZkNode(path, luck);
          if upToDate && path in live && path in zk.store {
            ChangedIsFetched(cfg, live, zk, srv, path, luck);
          }
        } else if event == Paths.ZOO_CHILD_EVENT {
          sorted := ReplicateZkGetNodes(addressSpace, strings, luck);
          if upToDate && Listed(live, zk, ApplyOrder.Under(addressSpace, strings)) {
            ChildrenAreFetched(cfg, live, zk, srv, addressSpace, strings, sorted, luck);
          }
        }
      }
    }

    /** The library's write service: write the nodes that exist, in order, and say which those were. */
    method WriteLocally(writes: seq<(Path, Data)>) returns (results: seq<bool>)
      modifies this`local
      ensures local == LocalWrites(old(local), writes)
      ensures |results| == |writes| && forall i :: 0 <= i < |writes| ==> results[i] == (writes[i].0 in local)
    {
      results := [];
      assert writes[0..] == writes;
      for i := 0 to |writes|
        invariant |results| == i && local.Keys == old(local).Keys
        invariant forall k :: 0 <= k < i ==> results[k] == (writes[k].0 in local)
        invariant LocalWrites(local, writes[i..]) == LocalWrites(old(local), writes)
      {
        assert writes[i..][0] == writes[i] && writes[i..][1..] == writes[i + 1..];
        results := results + [writes[i].0 in local];
        if writes[i].0 in local {
          local := local[writes[i].0 := writes[i].1];
        }
      }
    }

    /** zkUA_Service_Write, where every replication reports success: write all nodes locally, then push
        each node whose write succeeded. */
    method ServiceWrite(writes: seq<(Path, Data)>, luck: Luck) returns (results: seq<bool>)
      requires Valid()
      modifies this, zookeeper, Frame()
      ensures Valid() && fresh(Frame() - old(Frame()))
      ensures |results| == |writes| && forall i :: 0 <= i < |writes| ==> results[i] == (writes[i].0 in old(local))
      ensures local == LocalWrites(old(local), writes)
      ensures (zookeeper.zk, At(Idle)) ==
              Drive(nodeMzxid.cfg, old(zookeeper.zk),
                    old(At(Pushing(Written(local, writes)))).(local := LocalWrites(old(local), writes)), luck)
      ensures forall i :: 0 <= i < |writes| && results[i] ==>
                writes[i].0 in zookeeper.zk.store && zookeeper.zk.store[writes[i].0].data == local[writes[i].0]
      ensures forall p :: p in old(zookeeper.zk).store && (forall i :: 0 <= i < |writes| ==> writes[i].0 != p) ==>
                p in zookeeper.zk.store && zookeeper.zk.store[p] == old(zookeeper.zk).store[p]
    {
      hide Drive, Written, LocalWrites, Insert, CheckAge, HashTable<Path, nat>.Valid, Table.Valid, Shaped;
      results := WriteLocally(writes);
      WrittenSame(local, old(local), writes);
      ghost var cfg, written := nodeMzxid.cfg, local;
      ghost var target := Drive(cfg, zookeeper.zk, At(Pushing(Written(local, writes))), luck);
      assert Valid();
      RequestPushed(cfg, zookeeper.zk, At(Pushing(Written(local, writes))), writes, luck);
      assert writes[0..] == writes;
      for i := 0 to |writes|
        invariant Valid() && fresh(Frame() - old(Frame())) && local == written
        invariant Drive(cfg, zookeeper.zk, At(Pushing(Written(local, writes[i..]))), luck) == target
      {
        WrittenNext(local, writes, i);
        if results[i] {
          DriveNextPush(cfg, zookeeper.zk, At(Pushing(Written(local, writes[i..]))), luck);
          ReplicateNode(writes[i].0, local[writes[i].0], Client, luck);
        }
      }
      WrittenNone(local, writes[|writes|..]);
      DriveNone(cfg, zookeeper.zk, At(Pushing([])), luck);
    }
  }
}
