/** The search for a node's parent: a depth-first browse of forward hierarchical references from the
    root folder. */
module ParentSearch {
  import opened Sequences
  import opened Graphs

  /** The parent that was found and the type of its reference to the node. */
  datatype Parent = Parent(node: NodeId, refType: nat)

  /** p has a forward hierarchical reference of the reported type to the node, and is the root or
      reachable from it by such references. */
  ghost predicate IsParent(g: Graph, node: NodeId, p: Parent) {
    && Hierarchical(p.refType)
    && Reference(node, false, p.refType) in Refs(g, p.node)
    && Reaches(g, Hierarchical, ROOT, p.node)
  }

  ghost predicate Sound(g: Graph, node: NodeId, marked: set<nat>, found: Option<Parent>) {
    found.Some? ==> node.id in marked && IsParent(g, node, found.value)
  }

  /** Where ids are unique, the node searched for is found once it is marked. */
  ghost predicate Noticed(g: Graph, node: NodeId, marked: set<nat>, found: Option<Parent>) {
    UniqueIds(g) && node in Targets(g) && node.id in marked ==> found.Some?
  }

  lemma MarkTarget(g: Graph, node: NodeId, marked: set<nat>, found: Option<Parent>, p: NodeId, i: nat)
    requires Reaches(g, Hierarchical, ROOT, p) && i < |Refs(g, p)|
    requires Refs(g, p)[i].target == node && !Refs(g, p)[i].isInverse && Hierarchical(Refs(g, p)[i].refType)
    ensures var found' := Some(Parent(p, Refs(g, p)[i].refType));
            Sound(g, node, marked + {node.id}, found') && Noticed(g, node, marked + {node.id}, found')
  {
  }

  lemma MarkOther(g: Graph, node: NodeId, marked: set<nat>, found: Option<Parent>, child: NodeId)
    requires Sound(g, node, marked, found) && Noticed(g, node, marked, found) && child in Targets(g) && child != node
    ensures Sound(g, node, marked + {child.id}, found) && Noticed(g, node, marked + {child.id}, found)
  {
  }

  lemma FoundOnce(g: Graph, node: NodeId, marked: set<nat>, found: Option<Parent>)
    requires Sound(g, node, marked, found) && node.id !in marked
    ensures found == None
  {
  }

  lemma FoundIffBelow(g: Graph, node: NodeId, marked: set<nat>, found: Option<Parent>)
    requires UniqueIds(g) && Sound(g, node, marked, found) && Noticed(g, node, marked, found)
    requires Closed(g, Hierarchical, marked, {}, {node}) && Followed(g, Hierarchical, ROOT, |Refs(g, ROOT)|, marked)
    ensures found.Some? <==> Below(g, Hierarchical, ROOT, node)
  {
    if found.Some? {
      var p := found.value;
      assert Edge(g, Hierarchical, p.node, node);
    }
    if Below(g, Hierarchical, ROOT, node) {
      MarkedBelow(g, Hierarchical, ROOT, marked, {node}, node);
      EdgeTargets(g, Hierarchical);
    }
  }

  // ---------- What a search explores ----------

  /** The graph without the references of n, which a search for n does not follow, unless it starts there. */
  function StopAt(g: Graph, n: NodeId): Graph {
    if n in g && n != ROOT then g[n := []] else g
  }

  /** The ids that a search for n comes to. */
  ghost function Explored(g: Graph, n: NodeId): set<nat> {
    BelowIds(StopAt(g, n), Hierarchical, ROOT)
  }

  lemma StopAtRefs(g: Graph, n: NodeId, m: NodeId)
    requires m != n || m == ROOT
    ensures Refs(StopAt(g, n), m) == Refs(g, m)
  {
  }

  lemma StopAtEdges(g: Graph, n: NodeId)
    ensures forall a, b :: Edge(StopAt(g, n), Hierarchical, a, b) ==>
        Edge(g, Hierarchical, a, b) && (a != n || a == ROOT)
    ensures Targets(StopAt(g, n)) <= Targets(g)
  {
    var g' := StopAt(g, n);
    forall a, b | Edge(g', Hierarchical, a, b)
      ensures Edge(g, Hierarchical, a, b) && (a != n || a == ROOT)
    {
      var i :| 0 <= i < |Refs(g', a)| && Refs(g', a)[i].target == b && !Refs(g', a)[i].isInverse
          && Hierarchical(Refs(g', a)[i].refType);
      assert Refs(g, a)[i] == Refs(g', a)[i];
    }
  }

  lemma StopAtReaches(g: Graph, n: NodeId, a: NodeId)
    requires Reaches(StopAt(g, n), Hierarchical, ROOT, a)
    ensures Reaches(g, Hierarchical, ROOT, a)
  {
    StopAtEdges(g, n);
    var p :| IsPath(StopAt(g, n), Hierarchical, p) && p[0] == ROOT && p[|p| - 1] == a;
    assert IsPath(g, Hierarchical, p);
  }

  lemma ExploredAll(g: Graph, n: NodeId, marked: set<nat>)
    requires UniqueIds(g) && Closed(g, Hierarchical, marked, {}, {n})
             && Followed(g, Hierarchical, ROOT, |Refs(g, ROOT)|, marked)
    ensures Explored(g, n) <= marked
  {
    var g' := StopAt(g, n);
    StopAtEdges(g, n);
    StopAtRefs(g, n, ROOT);
    FollowedAll(g, Hierarchical, ROOT, marked);
    assert UniqueIds(g') && Followed(g', Hierarchical, ROOT, |Refs(g', ROOT)|, marked);
    assert Closed(g', Hierarchical, marked, {}, {});
    AllMarked(g', Hierarchical, ROOT, marked);
  }

  /** The slots that searches for the nodes ns need, one search after the other. */
  ghost function Needed(g: Graph, ns: seq<NodeId>): nat {
    if ns == [] then 0 else Needed(g, ns[..|ns| - 1]) + |Explored(g, ns[|ns| - 1])|
  }

  lemma NeededOneMore(g: Graph, ns: seq<NodeId>, k: nat)
    requires k < |ns|
    ensures Needed(g, ns[..k + 1]) == Needed(g, ns[..k]) + |Explored(g, ns[k])|
  {
    assert ns[..k + 1][..k] == ns[..k];
  }

  lemma {:induction false} NeededGrows(g: Graph, ns: seq<NodeId>, k: nat)
    requires k <= |ns|
    ensures Needed(g, ns[..k]) <= Needed(g, ns)
    decreases |ns| - k
  {
    if k < |ns| {
      NeededOneMore(g, ns, k);
      NeededGrows(g, ns, k + 1);
    } else {
      assert ns[..k] == ns;
    }
  }

  /** The types of reference that are followed, and the root folder, as numbers: HasChild, Organizes,
      HasEventSource, Aggregates, HasSubtype, HasProperty, HasComponent, HasNotifier, HasOrderedComponent and
      HasHistoricalConfiguration, and ns=0;i=84. A reported parent has a forward reference of one of these types
      to the node. Where ids are unique, a node that the root refers to by one of them is found; nothing is found
      if the root has no forward reference of one of them. */
  ghost predicate Reported(g: Graph, node: NodeId, found: Option<Parent>) {
    && (found.Some? ==>
          && found.value.refType in {34, 35, 36, 44, 45, 46, 47, 48, 49, 56}
          && Reference(node, false, found.value.refType) in Refs(g, found.value.node))
    && ((forall r :: r in Refs(g, NodeId(0, 84)) ==>
           r.isInverse || r.refType !in {34, 35, 36, 44, 45, 46, 47, 48, 49, 56}) ==> found == None)
    && (UniqueIds(g) ==>
          forall r :: r in Refs(g, NodeId(0, 84)) && r.target == node && !r.isInverse ==>
            r.refType in {34, 35, 36, 44, 45, 46, 47, 48, 49, 56} ==> found.Some?)
  }

  lemma WhatIsReported(g: Graph, node: NodeId, found: Option<Parent>)
    requires found.Some? ==> IsParent(g, node, found.value)
    requires UniqueIds(g) ==> (found.Some? <==> Below(g, Hierarchical, ROOT, node))
    ensures Reported(g, node, found)
  {
    if found.Some? {
      ReportedIsBelow(g, node, found.value);
      BelowNeedsReference(g, Hierarchical, ROOT, node);
    }
    forall r | r in Refs(g, NodeId(0, 84)) && r.target == node && !r.isInverse
               && r.refType in {34, 35, 36, 44, 45, 46, 47, 48, 49, 56}
      ensures Below(g, Hierarchical, ROOT, node)
    {
      DirectlyBelow(g, Hierarchical, ROOT, r);
    }
  }

  lemma ReportedIsBelow(g: Graph, node: NodeId, p: Parent)
    requires IsParent(g, node, p)
    ensures Below(g, Hierarchical, ROOT, node)
  {
    var i :| 0 <= i < |Refs(g, p.node)| && Refs(g, p.node)[i] == Reference(node, false, p.refType);
    EdgeAt(g, Hierarchical, p.node, i);
  }

  /** A node that no reference of these types leads to, but only references of others, is not reported. */
  lemma ReportedHasReference(g: Graph, node: NodeId, found: Option<Parent>)
    requires Reported(g, node, found)
    ensures found.Some? ==>
              exists m, r :: r in Refs(g, m) && r.target == node && !r.isInverse
                             && r.refType in {34, 35, 36, 44, 45, 46, 47, 48, 49, 56}
  {
    if found.Some? {
      assert Reference(node, false, found.value.refType).target == node;
    }
  }

  /** A node that only the root refers to, by one reference of one of the ten types, is reported with the root
      and this type; one that is only referred to by references of other types is not reported. */
  lemma OnlyReference(g: Graph, node: NodeId, found: Option<Parent>, refType: nat)
    requires UniqueIds(g) && Reported(g, node, found)
    requires Reference(node, false, refType) in Refs(g, NodeId(0, 84))
    requires forall m, r :: r in Refs(g, m) && r.target == node && !r.isInverse ==>
               m == NodeId(0, 84) && r.refType == refType
    ensures found == if refType in {34, 35, 36, 44, 45, 46, 47, 48, 49, 56} then Some(Parent(NodeId(0, 84), refType))
                     else None
  {
    if found.Some? {
      var r := Reference(node, false, found.value.refType);
      assert r in Refs(g, found.value.node) && r.target == node;
    }
  }

  class Search {
    const g: Graph
    const visited: Visited
    var searchedFor: NodeId
    var found: Option<Parent>
    // an id would have been written past the end of the array: what the program does then is undefined
    var overrun: bool

    constructor (g: Graph, capacity: nat)
      ensures this.g == g && visited.Valid() && visited.Marked() == {} && visited.cntr == 0
              && visited.ids.Length == capacity
      ensures fresh(visited) && fresh(visited.ids) && found == None && !overrun
    {
      this.g := g;
      visited := new Visited(capacity);
      searchedFor := ROOT;
      found := None;
      overrun := false;
    }

    ghost predicate Ready(stack: set<NodeId>)
      reads this, visited, visited.ids
    {
      && visited.Valid() && visited.Marked() <= Explored(g, searchedFor)
      && Sound(g, searchedFor, visited.Marked(), found)
      && Noticed(g, searchedFor, visited.Marked(), found)
      && Closed(g, Hierarchical, visited.Marked(), stack, {searchedFor})
    }

    /** There are fewer slots than ids to visit. */
    ghost predicate Short()
      reads this, visited, visited.ids
    {
      visited.ids.Length - (visited.cntr - |visited.Marked()|) < |Explored(g, searchedFor)|
    }

    /** zkUA_findParent_recursiveBrowse, called for the i-th reference of parent. */
    method Browse(child: NodeId, isInverse: bool, refType: nat, parent: NodeId, ghost stack: set<NodeId>, ghost i: nat)
      requires !overrun && Ready(stack) && Reaches(StopAt(g, searchedFor), Hierarchical, ROOT, parent)
      requires parent != searchedFor || parent == ROOT
      requires i < |Refs(g, parent)| && Refs(g, parent)[i] == Reference(child, isInverse, refType)
      modifies this`found, this`overrun, visited`cntr, visited.ids
      ensures visited.Valid() && old(visited.Marked()) <= visited.Marked() <= Explored(g, searchedFor)
      ensures if overrun then Short() else Ready(stack)
      ensures old(found).Some? ==> found == old(found)
      ensures visited.cntr - |visited.Marked()| == old(visited.cntr - |visited.Marked()|)
      ensures UniqueIds(g) && !isInverse && Hierarchical(refType) && !overrun ==> child.id in visited.Marked()
      decreases |Explored(g, searchedFor) - visited.Marked()|, 0
    {
      hide Sound, Noticed, Closed, Edge, Reaches, Targets, BelowIds, StopAt, IsParent, Hierarchical, Visited.Marked;
      if isInverse {
        return;
      }
      RefIsTarget(g, parent, i);
      var seen := visited.Seen(child.id);
      if seen {
        UniqueIdsNonzero(g, child);
        return;
      }
      if !Hierarchical(refType) {
        return;
      }
      StopAtRefs(g, searchedFor, parent);
      StopAtReaches(g, searchedFor, parent);
      BelowIdsAt(StopAt(g, searchedFor), Hierarchical, ROOT, parent, i);
      ghost var marked := visited.Marked();
      if visited.cntr == visited.ids.Length {
        FewerMarked(Explored(g, searchedFor), marked, child.id);
        overrun := true;
        return;
      }
      MarkShrinks(Explored(g, searchedFor), marked, child.id);
      visited.Mark(child.id);
      if child.ns == searchedFor.ns && child.id == searchedFor.id {
        FoundOnce(g, searchedFor, marked, found);
        MarkTarget(g, searchedFor, marked, found, parent, i);
        ClosedPush(g, Hierarchical, marked, stack, {searchedFor}, child);
        found := Some(Parent(parent, refType));
        return;
      }
      MarkOther(g, searchedFor, marked, found, child);
      ClosedPush(g, Hierarchical, marked, stack, {searchedFor}, child);
      EdgeAt(StopAt(g, searchedFor), Hierarchical, parent, i);
      ReachesStep(StopAt(g, searchedFor), Hierarchical, ROOT, parent, child);
      ForEachChild(child, stack + {child});
      if !overrun {
        ClosedPop(g, Hierarchical, visited.Marked(), stack, {searchedFor}, child);
      }
    }

    /** The library's loop over all references of a node. */
    method ForEachChild(node: NodeId, ghost stack: set<NodeId>)
      requires !overrun && Ready(stack) && Reaches(StopAt(g, searchedFor), Hierarchical, ROOT, node)
      requires node != searchedFor || node == ROOT
      modifies this`found, this`overrun, visited`cntr, visited.ids
      ensures visited.Valid() && old(visited.Marked()) <= visited.Marked() <= Explored(g, searchedFor)
      ensures if overrun then Short() else Ready(stack)
      ensures old(found).Some? ==> found == old(found)
      ensures visited.cntr - |visited.Marked()| == old(visited.cntr - |visited.Marked()|)
      ensures !overrun ==> Followed(g, Hierarchical, node, |Refs(g, node)|, visited.Marked())
      decreases |Explored(g, searchedFor) - visited.Marked()|, 1
    {
      hide Sound, Noticed, Closed, Edge, Reaches, Targets, Explored, StopAt, IsParent, Hierarchical, Refs, Followed,
           Visited.Marked;
      FollowedNone(g, Hierarchical, node, visited.Marked());
      var refs := Refs(g, node);
      for i := 0 to |refs|
        invariant !overrun && Ready(stack) && old(visited.Marked()) <= visited.Marked()
        invariant old(found).Some? ==> found == old(found)
        invariant visited.cntr - |visited.Marked()| == old(visited.cntr - |visited.Marked()|)
        invariant Followed(g, Hierarchical, node, i, visited.Marked())
      {
        LessLeft(Explored(g, searchedFor), old(visited.Marked()), visited.Marked());
        ghost var before := visited.Marked();
        Browse(refs[i].target, refs[i].isInverse, refs[i].refType, node, stack, i);
        if overrun {
          return;
        }
        FollowedMore(g, Hierarchical, node, i, before, visited.Marked());
      }
    }

    /** zkUA_UA_Server_locateParent: clear the array, but not its counter, and search from the root.
        The array is overrun only if fewer slots are free than there are ids to visit, and where ids are unique
        exactly then. Otherwise a reported parent is one; where ids are unique, a parent is reported exactly if
        the node is below the root, and the search uses up one slot for every id it can come to. */
    method LocateParent(node: NodeId)
      requires visited.Valid() && !overrun
      modifies this`searchedFor, this`found, this`overrun, visited`cntr, visited.ids
      ensures visited.Valid() && searchedFor == node
      ensures overrun ==> old(visited.cntr) + |Explored(g, node)| > visited.ids.Length
      ensures UniqueIds(g) ==> (overrun <==> old(visited.cntr) + |Explored(g, node)| > visited.ids.Length)
      ensures !overrun && found.Some? ==> IsParent(g, node, found.value)
      ensures !overrun && UniqueIds(g) ==> (found.Some? <==> Below(g, Hierarchical, ROOT, node))
      ensures visited.cntr == old(visited.cntr) + |visited.Marked()| && visited.Marked() <= Explored(g, node)
      ensures !overrun && UniqueIds(g) ==> visited.Marked() == Explored(g, node)
      ensures !overrun ==> Reported(g, node, found)
    {
      hide Visited.Marked, Explored, StopAt, Reaches, Targets, Below, Edge, UniqueIds;
      visited.Clear();
      searchedFor := node;
      found := None;
      ReachesSelf(StopAt(g, node), Hierarchical, ROOT);
      ForEachChild(ROOT, {});
      if UniqueIds(g) && !overrun {
        FoundIffBelow(g, node, visited.Marked(), found);
        ExploredAll(g, node, visited.Marked());
        assert visited.Marked() == Explored(g, node);
      }
      if !overrun {
        WhatIsReported(g, node, found);
      }
    }

    /** One search after the other. Where ids are unique, all of them fit exactly if the slots that are free at
        the beginning are as many as the ids that all the searches visit, since the counter is never reset. */
    method LocateParents(nodes: seq<NodeId>) returns (parents: seq<Option<Parent>>)
      requires visited.Valid() && !overrun
      modifies this`searchedFor, this`found, this`overrun, visited`cntr, visited.ids
      ensures visited.Valid() && |parents| <= |nodes| && (!overrun <==> |parents| == |nodes|)
      ensures UniqueIds(g) ==> (!overrun <==> old(visited.cntr) + Needed(g, nodes) <= visited.ids.Length)
      ensures UniqueIds(g) && !overrun ==> visited.cntr == old(visited.cntr) + Needed(g, nodes)
      ensures forall k :: 0 <= k < |parents| && parents[k].Some? ==> IsParent(g, nodes[k], parents[k].value)
      ensures UniqueIds(g) ==>
                forall k :: 0 <= k < |parents| ==> (parents[k].Some? <==> Below(g, Hierarchical, ROOT, nodes[k]))
      ensures forall k :: 0 <= k < |parents| ==> Reported(g, nodes[k], parents[k])
    {
      hide Visited.Marked, Visited.Valid, Explored, IsParent, Below, UniqueIds, Needed, Reported;
      parents := [];
      NeededNone(g, nodes);
      for i := 0 to |nodes|
        invariant visited.Valid() && !overrun && |parents| == i
        invariant UniqueIds(g) ==> visited.cntr == old(visited.cntr) + Needed(g, nodes[..i])
        invariant forall k :: 0 <= k < i && parents[k].Some? ==> IsParent(g, nodes[k], parents[k].value)
        invariant forall k :: 0 <= k < i ==> Reported(g, nodes[k], parents[k])
        invariant UniqueIds(g) ==>
                    forall k :: 0 <= k < i ==> (parents[k].Some? <==> Below(g, Hierarchical, ROOT, nodes[k]))
      {
        NeededOneMore(g, nodes, i);
        LocateParent(nodes[i]);
        if overrun {
          NeededGrows(g, nodes, i + 1);
          return;
        }
        parents := parents + [found];
      }
      assert nodes[..|nodes|] == nodes;
      WithinLength(visited);
    }
  }

  lemma NeededNone(g: Graph, ns: seq<NodeId>)
    ensures Needed(g, ns[..0]) == 0
  {
  }
}
