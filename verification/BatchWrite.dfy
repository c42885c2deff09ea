/** A client's write request: all attributes are read, all are written, and each write whose replication
    fails is then taken back. What the library, ZooKeeper and the write that takes back answer for each
    item is arbitrary. */
module BatchWrite {
  import opened Graphs

  datatype Target = Target(node: NodeId, attribute: nat)

  type Value = string

  type Store = map<Target, Value>

  /** accepts: the library carries out the write, if the target exists. replicates: the push to
      ZooKeeper succeeds. restores: the write of the old value succeeds. */
  datatype Item = Item(target: Target, value: Value, accepts: bool, replicates: bool, restores: bool)

  predicate Accepted(s: Store, it: Item) {
    it.accepts && it.target in s
  }

  predicate Undone(s: Store, it: Item) {
    Accepted(s, it) && !it.replicates && it.restores
  }

  function Write(s: Store, it: Item): Store {
    if Accepted(s, it) then s[it.target := it.value] else s
  }

  function Undo(s: Store, it: Item, before: Store): Store
    requires s.Keys == before.Keys
  {
    if Undone(s, it) then s[it.target := before[it.target]] else s
  }

  function WriteAll(s: Store, items: seq<Item>): (s': Store)
    ensures s'.Keys == s.Keys
  {
    if items == [] then s else Write(WriteAll(s, items[..|items| - 1]), items[|items| - 1])
  }

  function UndoAll(s: Store, items: seq<Item>, before: Store): (s': Store)
    requires s.Keys == before.Keys
    ensures s'.Keys == s.Keys
  {
    if items == [] then s else Undo(UndoAll(s, items[..|items| - 1], before), items[|items| - 1], before)
  }

  function Batch(s: Store, items: seq<Item>): (s': Store)
    ensures s'.Keys == s.Keys
  {
    UndoAll(WriteAll(s, items), items, s)
  }

  // ---------- What a batch leaves ----------

  /** The value of the last accepted write to t. */
  function LastWritten(s: Store, items: seq<Item>, t: Target): Value
    requires t in s
  {
    if items == [] then s[t]
    else
      var last := items[|items| - 1];
      if last.target == t && last.accepts then last.value else LastWritten(s, items[..|items| - 1], t)
  }

  predicate SomeUndone(s: Store, items: seq<Item>, t: Target) {
    exists i :: 0 <= i < |items| && items[i].target == t && Undone(s, items[i])
  }

  lemma {:induction false} WriteAllAt(s: Store, items: seq<Item>, t: Target)
    requires t in s
    ensures WriteAll(s, items)[t] == LastWritten(s, items, t)
  {
    if items != [] {
      WriteAllAt(s, items[..|items| - 1], t);
    }
  }

  lemma {:induction false} UndoAllAt(s: Store, items: seq<Item>, before: Store, t: Target)
    requires s.Keys == before.Keys && t in s
    ensures UndoAll(s, items, before)[t] == if SomeUndone(before, items, t) then before[t] else s[t]
  {
    if items != [] {
      var front, last := items[..|items| - 1], items[|items| - 1];
      UndoAllAt(s, front, before, t);
      assert forall i :: 0 <= i < |front| ==> items[i] == front[i];
      assert items[|items| - 1] == last;
    }
  }

  /** After a batch a target holds its old value if any write to it was taken back, and otherwise the
      value of the last accepted write to it; no target appears or disappears. */
  lemma BatchAt(s: Store, items: seq<Item>, t: Target)
    requires t in s
    ensures Batch(s, items).Keys == s.Keys
    ensures Batch(s, items)[t] == if SomeUndone(s, items, t) then s[t] else LastWritten(s, items, t)
  {
    WriteAllAt(s, items, t);
    UndoAllAt(WriteAll(s, items), items, s, t);
  }

  // ---------- The promise ----------

  predicate Distinct(items: seq<Item>) {
    forall i, j :: 0 <= i < j < |items| ==> items[i].target != items[j].target
  }

  /** The item's target holds the new value if its write and its replication succeeded or its old value
      could not be written back, and the old value otherwise. */
  predicate Kept(s: Store, after: Store, it: Item)
    requires s.Keys == after.Keys
  {
    it.target in s ==>
      after[it.target] == if it.accepts && (it.replicates || !it.restores) then it.value else s[it.target]
  }

  predicate Promise(s: Store, items: seq<Item>) {
    && (forall i :: 0 <= i < |items| ==> Kept(s, Batch(s, items), items[i]))
    && forall t :: t in s && (forall i :: 0 <= i < |items| ==> items[i].target != t) ==> Batch(s, items)[t] == s[t]
  }

  lemma {:induction false} LastWrittenNone(s: Store, items: seq<Item>, t: Target)
    requires t in s && forall i :: 0 <= i < |items| ==> items[i].target != t
    ensures LastWritten(s, items, t) == s[t]
  {
    if items != [] {
      LastWrittenNone(s, items[..|items| - 1], t);
    }
  }

  lemma {:induction false} LastWrittenOnly(s: Store, items: seq<Item>, i: nat)
    requires Distinct(items) && i < |items| && items[i].target in s
    ensures LastWritten(s, items, items[i].target) == if items[i].accepts then items[i].value else s[items[i].target]
  {
    var front := items[..|items| - 1];
    if i < |front| {
      LastWrittenOnly(s, front, i);
      assert front[i] == items[i] && items[|items| - 1].target != items[i].target;
    } else {
      LastWrittenNone(s, front, items[i].target);
    }
  }

  lemma DistinctKeepPromise(s: Store, items: seq<Item>)
    requires Distinct(items)
    ensures Promise(s, items)
  {
    forall i | 0 <= i < |items|
      ensures Kept(s, Batch(s, items), items[i])
    {
      if items[i].target in s {
        BatchAt(s, items, items[i].target);
        LastWrittenOnly(s, items, i);
      }
    }
    forall t | t in s && (forall i :: 0 <= i < |items| ==> items[i].target != t)
      ensures Batch(s, items)[t] == s[t]
    {
      BatchAt(s, items, t);
      LastWrittenNone(s, items, t);
    }
  }

  /** The items ask for the same writes, whatever becomes of them. */
  predicate SameRequest(a: seq<Item>, b: seq<Item>) {
    |a| == |b| && forall i :: 0 <= i < |a| ==> a[i].target == b[i].target && a[i].value == b[i].value
  }

  /** The request is accepted; only the j-th item is not replicated, and is taken back. */
  function FailOnly(request: seq<Item>, j: nat): (r: seq<Item>)
    ensures SameRequest(r, request)
  {
    seq(|request|, i requires 0 <= i < |request| => Item(request[i].target, request[i].value, true, i != j, true))
  }

  lemma RepeatedTargetBreaksPromise(s: Store, request: seq<Item>, i: nat, j: nat)
    requires i < j < |request| && request[i].target == request[j].target && request[i].target in s
    requires request[i].value != s[request[i].target]
    ensures !Promise(s, FailOnly(request, j))
  {
  }

  /** For a request that would change every target it names, the promise is kept whatever the library
      and ZooKeeper answer, exactly if no target is named twice. */
  lemma PromiseKeptIffDistinct(s: Store, request: seq<Item>)
    requires forall i :: 0 <= i < |request| ==> request[i].target in s && request[i].value != s[request[i].target]
    ensures (forall items :: SameRequest(items, request) ==> Promise(s, items)) <==> Distinct(request)
  {
    if Distinct(request) {
      forall items | SameRequest(items, request)
        ensures Promise(s, items)
      {
        DistinctKeepPromise(s, items);
      }
    } else {
      var i, j :| 0 <= i < j < |request| && request[i].target == request[j].target;
      RepeatedTargetBreaksPromise(s, request, i, j);
      assert SameRequest(FailOnly(request, j), request);
    }
  }

  // ---------- The code ----------

  lemma UndoAllNothing(s: Store, items: seq<Item>, before: Store)
    requires s.Keys == before.Keys
    ensures UndoAll(s, items[..0], before) == s
  {
  }

  lemma UndoAllOneMore(s: Store, items: seq<Item>, before: Store, i: nat)
    requires s.Keys == before.Keys && i < |items|
    ensures UndoAll(s, items[..i + 1], before) == Undo(UndoAll(s, items[..i], before), items[i], before)
  {
    assert items[..i + 1][..i] == items[..i];
  }

  class Server {
    var store: Store

    constructor (store: Store)
      ensures this.store == store
    {
      this.store := store;
    }

    /** The library's write service. */
    method LibraryWrite(items: seq<Item>) returns (results: seq<bool>)
      modifies this
      ensures store == WriteAll(old(store), items)
      ensures |results| == |items| && forall k :: 0 <= k < |items| ==> results[k] == Accepted(old(store), items[k])
    {
      results := [];
      for i := 0 to |items|
        invariant store == WriteAll(old(store), items[..i])
        invariant |results| == i && forall k :: 0 <= k < i ==> results[k] == Accepted(old(store), items[k])
      {
        assert items[..i + 1][..i] == items[..i];
        results := results + [Accepted(store, items[i])];
        if items[i].accepts && items[i].target in store {
          store := store[items[i].target := items[i].value];
        }
      }
      assert items[..|items|] == items;
    }

    /** zkUA_Service_Write. The results are those of the library's writes: an item that was taken back
        is still reported as written. */
    method ServiceWrite(items: seq<Item>) returns (results: seq<bool>)
      modifies this
      ensures store == Batch(old(store), items)
      ensures |results| == |items| && forall k :: 0 <= k < |items| ==> results[k] == Accepted(old(store), items[k])
    {
      hide UndoAll, WriteAll;
      ghost var before := store;
      var saved: map<nat, Value> := map[];
      for i := 0 to |items|
        invariant store == before
        invariant forall k :: k in saved <==> 0 <= k < i && items[k].target in store
        invariant forall k :: k in saved ==> saved[k] == store[items[k].target]
      {
        if items[i].target in store {
          saved := saved[i := store[items[i].target]];
        }
      }
      results := LibraryWrite(items);
      ghost var written := store;
      UndoAllNothing(written, items, before);
      for i := 0 to |items|
        invariant store.Keys == before.Keys && store == UndoAll(written, items[..i], before)
      {
        UndoAllOneMore(written, items, before, i);
        if results[i] && !items[i].replicates && items[i].restores {
          store := store[items[i].target := saved[i]];
        }
      }
      assert items[..|items|] == items;
    }
  }
}
