/** The client's browse of a server's address space, which creates a znode for every node below the
    root folder: a depth-first browse of all forward references. */
module ClientBrowse {
  import opened Graphs

  /** The targets of the forward references that lead to nodes with the given id, whatever their namespace. */
  function Same(refs: seq<Reference>, id: nat): (ts: seq<NodeId>)
    ensures forall j :: 0 <= j < |ts| ==> ts[j].id == id
  {
    if refs == [] then []
    else
      var last := refs[|refs| - 1];
      Same(refs[..|refs| - 1], id) + if !last.isInverse && last.target.id == id then [last.target] else []
  }

  lemma {:induction false} SameIn(refs: seq<Reference>, id: nat)
    ensures forall t :: t in Same(refs, id) <==>
              exists i :: 0 <= i < |refs| && refs[i].target == t && !refs[i].isInverse && t.id == id
  {
    if refs != [] {
      var rest := refs[..|refs| - 1];
      SameIn(rest, id);
      forall t
        ensures t in Same(refs, id) <==>
            exists i :: 0 <= i < |refs| && refs[i].target == t && !refs[i].isInverse && t.id == id
      {
        if i :| 0 <= i < |refs| && refs[i].target == t && !refs[i].isInverse && t.id == id {
          if i < |rest| {
            assert rest[i] == refs[i];
            assert t in Same(rest, id);
          } else {
            assert t in [refs[i].target];
          }
        }
        if t in Same(rest, id) {
          var i :| 0 <= i < |rest| && rest[i].target == t && !rest[i].isInverse && t.id == id;
          assert refs[i] == rest[i];
        }
      }
    }
  }

  /** No node has two forward references that lead to the same id. */
  ghost predicate Plain(g: Graph) {
    forall n, id :: |Same(Refs(g, n), id)| <= 1
  }

  ghost function Ids(pushed: seq<NodeId>): set<nat> {
    set j | 0 <= j < |pushed| :: pushed[j].id
  }

  /** Every znode created stands for a node below the root. */
  ghost predicate OnlyBelow(g: Graph, pushed: seq<NodeId>) {
    forall j :: 0 <= j < |pushed| ==> Below(g, AnyKind, ROOT, pushed[j]) && pushed[j] in Targets(g)
  }

  /** No two znodes created stand for nodes with the same id. */
  ghost predicate Distinct(pushed: seq<NodeId>) {
    forall j, k :: 0 <= j < k < |pushed| ==> pushed[j].id != pushed[k].id
  }

  lemma PushSame(g: Graph, parent: NodeId, i: nat, pushed: seq<NodeId>)
    requires i < |Refs(g, parent)| && !Refs(g, parent)[i].isInverse
    requires OnlyBelow(g, pushed) && Reaches(g, AnyKind, ROOT, parent) && Refs(g, parent)[i].target.id !in Ids(pushed)
    ensures var id := Refs(g, parent)[i].target.id;
            var news := Same(Refs(g, parent), id);
            && news != []
            && OnlyBelow(g, pushed + news) && Ids(pushed + news) == Ids(pushed) + {id}
            && (Distinct(pushed) && |news| <= 1 ==> Distinct(pushed + news))
            && forall k :: 0 <= k <= |news| ==> OnlyBelow(g, pushed + news[..k])
  {
    hide Reaches, Edge, Targets, Ids, Same;
    var id := Refs(g, parent)[i].target.id;
    var news := Same(Refs(g, parent), id);
    SameIn(Refs(g, parent), id);
    assert Refs(g, parent)[i].target in news;
    forall j | 0 <= j < |news|
      ensures Below(g, AnyKind, ROOT, news[j]) && news[j] in Targets(g)
    {
      assert news[j] in news;
      var k :| 0 <= k < |Refs(g, parent)| && Refs(g, parent)[k].target == news[j] && !Refs(g, parent)[k].isInverse;
      EdgeAt(g, AnyKind, parent, k);
      RefIsTarget(g, parent, k);
    }
    IdsAppend(pushed, news, id);
    if Distinct(pushed) && |news| <= 1 {
      DistinctAppend(pushed, news[0]);
      assert news == [news[0]];
    }
  }

  lemma DistinctAppend(pushed: seq<NodeId>, n: NodeId)
    requires Distinct(pushed) && n.id !in Ids(pushed)
    ensures Distinct(pushed + [n])
  {
  }

  lemma IdsAppend(pushed: seq<NodeId>, news: seq<NodeId>, id: nat)
    requires news != [] && forall j :: 0 <= j < |news| ==> news[j].id == id
    ensures Ids(pushed + news) == Ids(pushed) + {id}
  {
    var all := pushed + news;
    assert all[|pushed|].id == id;
    forall x | x in Ids(pushed)
      ensures x in Ids(all)
    {
      var j :| 0 <= j < |pushed| && pushed[j].id == x;
      assert all[j].id == x;
    }
  }

  lemma PushedIffBelow(g: Graph, pushed: seq<NodeId>, n: NodeId)
    requires UniqueIds(g) && OnlyBelow(g, pushed)
    requires Closed(g, AnyKind, Ids(pushed), {}, {}) && Followed(g, AnyKind, ROOT, |Refs(g, ROOT)|, Ids(pushed))
    ensures n in pushed <==> Below(g, AnyKind, ROOT, n)
  {
    if Below(g, AnyKind, ROOT, n) {
      MarkedBelow(g, AnyKind, ROOT, Ids(pushed), {}, n);
      EdgeTargets(g, AnyKind);
      var j :| 0 <= j < |pushed| && pushed[j].id == n.id;
      assert pushed[j] == n;
    }
  }

  lemma MarkedIffBelow(g: Graph, pushed: seq<NodeId>)
    requires UniqueIds(g) && OnlyBelow(g, pushed)
    requires Closed(g, AnyKind, Ids(pushed), {}, {}) && Followed(g, AnyKind, ROOT, |Refs(g, ROOT)|, Ids(pushed))
    ensures Ids(pushed) == BelowIds(g, AnyKind, ROOT)
  {
    AllMarked(g, AnyKind, ROOT, Ids(pushed));
  }

  lemma {:induction false} DistinctCount(pushed: seq<NodeId>)
    requires Distinct(pushed)
    ensures |Ids(pushed)| == |pushed|
  {
    if pushed != [] {
      var front, last := pushed[..|pushed| - 1], pushed[|pushed| - 1];
      DistinctCount(front);
      IdsAppend(front, [last], last.id);
      assert pushed == front + [last];
      assert last.id !in Ids(front);
    }
  }

  /** The root folder is ns=0;i=84: what it refers to forward is below it, and nothing is if it refers to
      nothing forward. */
  lemma BelowRoot(g: Graph)
    ensures forall n :: Below(g, AnyKind, ROOT, n) ==> exists r :: r in Refs(g, NodeId(0, 84)) && !r.isInverse
    ensures forall r :: r in Refs(g, NodeId(0, 84)) && !r.isInverse ==> Below(g, AnyKind, ROOT, r.target)
  {
    forall n | Below(g, AnyKind, ROOT, n)
      ensures exists r :: r in Refs(g, NodeId(0, 84)) && !r.isInverse
    {
      BelowNeedsReference(g, AnyKind, ROOT, n);
    }
    forall r | r in Refs(g, NodeId(0, 84)) && !r.isInverse
      ensures Below(g, AnyKind, ROOT, r.target)
    {
      DirectlyBelow(g, AnyKind, ROOT, r);
    }
  }

  class Browser {
    const g: Graph
    const visited: Visited
    var pushed: seq<NodeId>
    // an id would have been written past the end of the array: what the program does then is undefined
    var overrun: bool

    constructor (g: Graph, capacity: nat)
      ensures this.g == g && visited.Valid() && visited.Marked() == {} && visited.cntr == 0
      ensures visited.ids.Length == capacity && pushed == [] && !overrun && fresh(visited) && fresh(visited.ids)
    {
      this.g := g;
      visited := new Visited(capacity);
      pushed := [];
      overrun := false;
    }

    ghost predicate Ready(stack: set<NodeId>)
      reads this, visited, visited.ids
    {
      && visited.Valid()
      && visited.Marked() == Ids(pushed) && visited.Marked() <= BelowIds(g, AnyKind, ROOT) && OnlyBelow(g, pushed)
      && (Plain(g) ==> Distinct(pushed))
      && Closed(g, AnyKind, visited.Marked(), stack, {})
    }

    /** All slots are used; where no node has two forward references to one id, there are fewer of them than ids
        to visit. */
    ghost predicate Short()
      reads this, visited, visited.ids
    {
      && visited.cntr == visited.ids.Length
      && (Plain(g) ==> visited.ids.Length - (visited.cntr - |pushed|) < |BelowIds(g, AnyKind, ROOT)|)
    }

    /** Create a znode, and mark, once for each forward reference of the parent to the child's id, while slots
        are free. */
    method Push(child: NodeId, parent: NodeId)
      requires visited.Valid() && !overrun && (child.id == 0 ==> visited.cntr == visited.ids.Length)
      modifies this`pushed, this`overrun, visited`cntr, visited.ids
      ensures visited.Valid()
      ensures var news := Same(Refs(g, parent), child.id);
              var n := visited.cntr - old(visited.cntr);
              && 0 <= n <= |news| && pushed == old(pushed) + news[..n]
              && visited.Marked() == old(visited.Marked()) + (if n == 0 then {} else {child.id})
              && (overrun <==> n < |news|) && (overrun ==> visited.cntr == visited.ids.Length)
    {
      hide Visited.Marked;
      var refs := Refs(g, parent);
      ghost var news := Same(refs, child.id);
      assert Same(refs[..0], child.id) == [];
      for j := 0 to |refs|
        invariant visited.Valid() && !overrun && Same(refs[..j], child.id) <= news
        invariant child.id == 0 ==> visited.cntr == visited.ids.Length
        invariant visited.cntr == old(visited.cntr) + |Same(refs[..j], child.id)|
        invariant pushed == old(pushed) + Same(refs[..j], child.id)
        invariant visited.Marked() ==
                    old(visited.Marked()) + if Same(refs[..j], child.id) == [] then {} else {child.id}
      {
        SameOneMore(refs, child.id, j);
        if !refs[j].isInverse && refs[j].target.id == child.id {
          if visited.cntr == visited.ids.Length {
            overrun := true;
            return;
          }
          pushed := pushed + [refs[j].target];
          visited.Mark(child.id);
        }
      }
      assert refs[..|refs|] == refs;
    }

    /** zkUA_BrowseFolder_recursive, called for the i-th reference of parent. */
    method Browse(child: NodeId, isInverse: bool, parent: NodeId, ghost stack: set<NodeId>, ghost i: nat)
      requires !overrun && Ready(stack) && Reaches(g, AnyKind, ROOT, parent)
      requires i < |Refs(g, parent)| && Refs(g, parent)[i].target == child && Refs(g, parent)[i].isInverse == isInverse
      modifies this`pushed, this`overrun, visited`cntr, visited.ids
      ensures visited.Valid() && old(visited.Marked()) <= visited.Marked() && old(pushed) <= pushed
      ensures if overrun then Short() && OnlyBelow(g, pushed) else Ready(stack)
      ensures visited.cntr - |pushed| == old(visited.cntr - |pushed|)
      ensures UniqueIds(g) && !isInverse && !overrun ==> child.id in visited.Marked()
      decreases |BelowIds(g, AnyKind, ROOT) - visited.Marked()|, 0
    {
      hide OnlyBelow, Distinct, Ids, Closed, Edge, Reaches, Targets, BelowIds, Visited.Marked, Same, Refs, UniqueIds;
      if isInverse {
        return;
      }
      RefIsTarget(g, parent, i);
      var seen := visited.Seen(child.id);
      if seen {
        UniqueIdsNonzero(g, child);
        return;
      }
      ghost var below, before, news := BelowIds(g, AnyKind, ROOT), pushed, Same(Refs(g, parent), child.id);
      BelowIdsAt(g, AnyKind, ROOT, parent, i);
      PushSame(g, parent, i, pushed);
      ClosedPush(g, AnyKind, visited.Marked(), stack, {}, child);
      MarkShrinks(below, visited.Marked(), child.id);
      FewerMarked(below, visited.Marked(), child.id);
      if Plain(g) {
        DistinctCount(pushed);
      }
      Push(child, parent);
      if overrun {
        return;
      }
      assert news[..|news|] == news;
      EdgeAt(g, AnyKind, parent, i);
      ReachesStep(g, AnyKind, ROOT, parent, child);
      ForEachChild(child, stack + {child});
      if !overrun {
        ClosedPop(g, AnyKind, visited.Marked(), stack, {}, child);
      }
    }

    /** The library's loop over all references of a node. */
    method ForEachChild(node: NodeId, ghost stack: set<NodeId>)
      requires !overrun && Ready(stack) && Reaches(g, AnyKind, ROOT, node)
      modifies this`pushed, this`overrun, visited`cntr, visited.ids
      ensures visited.Valid() && old(visited.Marked()) <= visited.Marked() && old(pushed) <= pushed
      ensures if overrun then Short() && OnlyBelow(g, pushed) else Ready(stack)
      ensures visited.cntr - |pushed| == old(visited.cntr - |pushed|)
      ensures !overrun ==> Followed(g, AnyKind, node, |Refs(g, node)|, visited.Marked())
      decreases |BelowIds(g, AnyKind, ROOT) - visited.Marked()|, 1
    {
      hide Plain, OnlyBelow, Distinct, Ids, Closed, Edge, Reaches, Targets, BelowIds, Refs, Followed, Visited.Marked;
      FollowedNone(g, AnyKind, node, visited.Marked());
      var refs := Refs(g, node);
      for i := 0 to |refs|
        invariant !overrun && Ready(stack) && old(visited.Marked()) <= visited.Marked() && old(pushed) <= pushed
        invariant visited.cntr - |pushed| == old(visited.cntr - |pushed|)
        invariant Followed(g, AnyKind, node, i, visited.Marked())
      {
        LessLeft(BelowIds(g, AnyKind, ROOT), old(visited.Marked()), visited.Marked());
        ghost var before := visited.Marked();
        Browse(refs[i].target, refs[i].isInverse, node, stack, i);
        if overrun {
          return;
        }
        FollowedMore(g, AnyKind, node, i, before, visited.Marked());
      }
    }

    /** zkUA_UAServerAddressSpace: clear the array, but not its counter, and browse from the root.
        Znodes are created only for nodes below the root; where ids are unique, for all of them; and where no
        node has two forward references to one id, never two for the same id. The array is overrun only after
        all slots are used, one by each znode; where ids are unique and no node has two forward references to
        one id, exactly if there are fewer of them than ids below the root. */
    method PushAddressSpace()
      requires visited.Valid() && !overrun
      modifies this`pushed, this`overrun, visited`cntr, visited.ids
      ensures visited.Valid() && visited.cntr == old(visited.cntr) + |pushed|
      ensures overrun ==> visited.cntr == visited.ids.Length
      ensures UniqueIds(g) && Plain(g) ==>
                (overrun <==> old(visited.cntr) + |BelowIds(g, AnyKind, ROOT)| > visited.ids.Length)
      ensures forall n :: n in pushed ==> Below(g, AnyKind, ROOT, n)
      ensures UniqueIds(g) && !overrun ==> forall n :: n in pushed <==> Below(g, AnyKind, ROOT, n)
      ensures Plain(g) && !overrun ==> Distinct(pushed)
      ensures UniqueIds(g) && !overrun ==> visited.Marked() == BelowIds(g, AnyKind, ROOT)
      ensures (forall r :: r in Refs(g, NodeId(0, 84)) ==> r.isInverse) ==> pushed == []
      ensures UniqueIds(g) && !overrun ==>
                forall r :: r in Refs(g, NodeId(0, 84)) && !r.isInverse ==> r.target in pushed
    {
      hide Visited.Marked, Plain, Edge, Reaches, Targets, BelowIds, UniqueIds, Followed, Refs, IsPath, Below,
           Visited.Valid;
      visited.Clear();
      pushed := [];
      ReachesSelf(g, AnyKind, ROOT);
      ForEachChild(ROOT, {});
      WithinLength(visited);
      BelowRoot(g);
      if pushed != [] {
        assert Below(g, AnyKind, ROOT, pushed[0]);
      }
      if UniqueIds(g) && !overrun {
        forall n
          ensures n in pushed <==> Below(g, AnyKind, ROOT, n)
        {
          PushedIffBelow(g, pushed, n);
        }
        MarkedIffBelow(g, pushed);
        if Plain(g) {
          DistinctCount(pushed);
        }
      }
    }
  }

  lemma SameOneMore(refs: seq<Reference>, id: nat, j: nat)
    requires j < |refs|
    ensures Same(refs[..j + 1], id) ==
            Same(refs[..j], id) + if !refs[j].isInverse && refs[j].target.id == id then [refs[j].target] else []
    ensures Same(refs[..j + 1], id) <= Same(refs, id)
  {
    assert refs[..j + 1][..j] == refs[..j];
    SamePrefix(refs, id, j + 1);
  }

  lemma {:induction false} SamePrefix(refs: seq<Reference>, id: nat, k: nat)
    requires k <= |refs|
    ensures Same(refs[..k], id) <= Same(refs, id)
  {
    if k == |refs| {
      assert refs[..k] == refs;
    } else {
      assert refs[..|refs| - 1][..k] == refs[..k];
      SamePrefix(refs[..|refs| - 1], id, k);
    }
  }
}
