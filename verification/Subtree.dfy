/** The check whether a node belongs to the subtree of the Server node: a depth-first browse of all
    forward references, over an array of visited ids that is never cleared. */
module ServerSubtree {
  import opened Graphs

  /** A positive answer is right, and the node has been visited. */
  ghost predicate Sound(g: Graph, node: NodeId, marked: set<nat>, result: bool) {
    result ==> node.id in marked && Below(g, AnyKind, SERVER, node)
  }

  /** In a search that began with nothing visited, and where ids are unique, the answer is positive
      once the node has been visited, and what was visited is closed. */
  ghost predicate Complete(g: Graph, node: NodeId, marked: set<nat>, stack: set<NodeId>, result: bool) {
    && Closed(g, AnyKind, marked, stack, {})
    && (UniqueIds(g) && node in Targets(g) && node.id in marked ==> result)
  }

  lemma Visit(g: Graph, node: NodeId, marked: set<nat>, stack: set<NodeId>, result: bool, parent: NodeId, child: NodeId)
    requires Sound(g, node, marked, result) && Reaches(g, AnyKind, SERVER, parent) && Edge(g, AnyKind, parent, child)
    requires child in Targets(g)
    ensures Sound(g, node, marked + {child.id}, result || child == node)
    ensures Complete(g, node, marked, stack, result) ==>
              Complete(g, node, marked + {child.id}, stack + {child}, result || child == node)
  {
  }

  /** A node that a forward reference leads to, and that is not marked, is one of those to mark. */
  lemma Enter(g: Graph, node: NodeId, marked: set<nat>, all: set<nat>, stack: set<NodeId>, result: bool, parent: NodeId,
              i: nat, child: NodeId)
    requires Sound(g, node, marked, result) && Reaches(g, AnyKind, SERVER, parent)
    requires i < |Refs(g, parent)| && Refs(g, parent)[i].target == child && !Refs(g, parent)[i].isInverse
    requires marked <= all && BelowIds(g, AnyKind, SERVER) <= all && child.id !in marked
    ensures child.id in all && |marked| < |all| && |all - (marked + {child.id})| < |all - marked|
    ensures Reaches(g, AnyKind, SERVER, child)
    ensures Sound(g, node, marked + {child.id}, result || child == node)
    ensures Complete(g, node, marked, stack, result) ==>
              Complete(g, node, marked + {child.id}, stack + {child}, result || child == node)
  {
    hide Sound, Complete, Edge, Reaches, Targets, BelowIds, Refs;
    RefIsTarget(g, parent, i);
    EdgeAt(g, AnyKind, parent, i);
    BelowIdsAt(g, AnyKind, SERVER, parent, i);
    FewerMarked(all, marked, child.id);
    MarkShrinks(all, marked, child.id);
    Visit(g, node, marked, stack, result, parent, child);
    ReachesStep(g, AnyKind, SERVER, parent, child);
  }

  lemma Leave(g: Graph, node: NodeId, marked: set<nat>, stack: set<NodeId>, result: bool, child: NodeId)
    requires Complete(g, node, marked, stack + {child}, result) && Followed(g, AnyKind, child, |Refs(g, child)|, marked)
    ensures Complete(g, node, marked, stack, result)
  {
    ClosedPop(g, AnyKind, marked, stack, {}, child);
  }

  lemma NothingVisited(g: Graph, node: NodeId)
    ensures Complete(g, node, {}, {}, false)
  {
  }

  lemma AnswerIffBelow(g: Graph, node: NodeId, marked: set<nat>, result: bool)
    requires UniqueIds(g) && Sound(g, node, marked, result) && Complete(g, node, marked, {}, result)
    requires Followed(g, AnyKind, SERVER, |Refs(g, SERVER)|, marked)
    ensures result <==> Below(g, AnyKind, SERVER, node)
  {
    if Below(g, AnyKind, SERVER, node) {
      MarkedBelow(g, AnyKind, SERVER, marked, {}, node);
      EdgeTargets(g, AnyKind);
    }
  }

  lemma VisitedAll(g: Graph, node: NodeId, marked: set<nat>, result: bool)
    requires UniqueIds(g) && Complete(g, node, marked, {}, result)
             && Followed(g, AnyKind, SERVER, |Refs(g, SERVER)|, marked)
    ensures BelowIds(g, AnyKind, SERVER) <= marked
  {
    AllMarked(g, AnyKind, SERVER, marked);
  }

  /** The Server node is ns=0;i=2253: what it refers to forward is below it, and nothing is if it refers to
      nothing forward. */
  lemma BelowServer(g: Graph, node: NodeId)
    ensures Below(g, AnyKind, SERVER, node) ==> exists r :: r in Refs(g, NodeId(0, 2253)) && !r.isInverse
    ensures forall r :: r in Refs(g, NodeId(0, 2253)) && r.target == node && !r.isInverse ==>
              Below(g, AnyKind, SERVER, node)
  {
    if Below(g, AnyKind, SERVER, node) {
      BelowNeedsReference(g, AnyKind, SERVER, node);
    }
    forall r | r in Refs(g, NodeId(0, 2253)) && r.target == node && !r.isInverse
      ensures Below(g, AnyKind, SERVER, node)
    {
      DirectlyBelow(g, AnyKind, SERVER, r);
    }
  }

  class Check {
    const g: Graph
    const visited: Visited
    var searchedFor: NodeId
    var result: bool
    // an id would have been written past the end of the array: what the program does then is undefined
    var overrun: bool

    constructor (g: Graph, capacity: nat)
      ensures this.g == g && visited.Valid() && visited.Marked() == {} && visited.cntr == 0
              && visited.ids.Length == capacity
      ensures fresh(visited) && fresh(visited.ids) && !overrun
    {
      this.g := g;
      visited := new Visited(capacity);
      searchedFor := SERVER;
      result := false;
      overrun := false;
    }

    /** all: the ids that are marked in the end at most, those of earlier checks and those below the Server node. */
    ghost predicate Ready(all: set<nat>)
      reads this, visited, visited.ids
    {
      && visited.Valid() && visited.Marked() <= all && BelowIds(g, AnyKind, SERVER) <= all
      && Sound(g, searchedFor, visited.Marked(), result)
    }

    /** There are fewer slots than ids to mark. */
    ghost predicate Short(all: set<nat>)
      reads this, visited, visited.ids
    {
      visited.ids.Length - (visited.cntr - |visited.Marked()|) < |all|
    }

    ghost predicate SoFar(stack: set<NodeId>)
      reads this, visited, visited.ids
    {
      Complete(g, searchedFor, visited.Marked(), stack, result)
    }

    /** zkUA_jsonDecode_checkChildOfNS0ServerNode, called for the i-th reference of parent. */
    method Browse(child: NodeId, isInverse: bool, parent: NodeId, ghost all: set<nat>, ghost stack: set<NodeId>,
                  ghost i: nat)
      requires !overrun && Ready(all) && Reaches(g, AnyKind, SERVER, parent)
      requires i < |Refs(g, parent)| && Refs(g, parent)[i].target == child && Refs(g, parent)[i].isInverse == isInverse
      modifies this`result, this`overrun, visited`cntr, visited.ids
      ensures Ready(all) && old(visited.Marked()) <= visited.Marked() && (overrun ==> Short(all))
      ensures visited.cntr - |visited.Marked()| == old(visited.cntr - |visited.Marked()|)
      ensures old(SoFar(stack)) && !overrun ==> SoFar(stack)
      ensures old(searchedFor.id in visited.Marked()) ==> result == old(result)
      ensures UniqueIds(g) && !isInverse && !overrun ==> child.id in visited.Marked()
      decreases |all - visited.Marked()|, 0
    {
      hide Sound, Complete, Edge, Reaches, Targets, BelowIds, Below, UniqueIds, Closed, Followed, IsPath, Refs,
           Visited.Marked;
      if isInverse {
        return;
      }
      RefIsTarget(g, parent, i);
      var seen := visited.Seen(child.id);
      if seen {
        UniqueIdsNonzero(g, child);
        return;
      }
      Enter(g, searchedFor, visited.Marked(), all, stack, result, parent, i, child);
      if visited.cntr == visited.ids.Length {
        overrun := true;
        return;
      }
      if child.ns == searchedFor.ns && child.id == searchedFor.id {
        result := true;
      }
      visited.Mark(child.id);
      ForEachChild(child, all, stack + {child});
      if SoFar(stack + {child}) && !overrun {
        Leave(g, searchedFor, visited.Marked(), stack, result, child);
      }
    }

    /** The library's loop over all references of a node. */
    method ForEachChild(node: NodeId, ghost all: set<nat>, ghost stack: set<NodeId>)
      requires !overrun && Ready(all) && Reaches(g, AnyKind, SERVER, node)
      modifies this`result, this`overrun, visited`cntr, visited.ids
      ensures Ready(all) && old(visited.Marked()) <= visited.Marked() && (overrun ==> Short(all))
      ensures visited.cntr - |visited.Marked()| == old(visited.cntr - |visited.Marked()|)
      ensures old(SoFar(stack)) && !overrun ==> SoFar(stack)
      ensures old(searchedFor.id in visited.Marked()) ==> result == old(result)
      ensures !overrun ==> Followed(g, AnyKind, node, |Refs(g, node)|, visited.Marked())
      decreases |all - visited.Marked()|, 1
    {
      hide Sound, Complete, Edge, Reaches, Targets, BelowIds, Refs, Followed, Visited.Marked;
      FollowedNone(g, AnyKind, node, visited.Marked());
      var refs := Refs(g, node);
      for i := 0 to |refs|
        invariant !overrun && Ready(all) && old(visited.Marked()) <= visited.Marked()
        invariant visited.cntr - |visited.Marked()| == old(visited.cntr - |visited.Marked()|)
        invariant old(SoFar(stack)) ==> SoFar(stack)
        invariant old(searchedFor.id in visited.Marked()) ==> result == old(result)
        invariant Followed(g, AnyKind, node, i, visited.Marked())
      {
        LessLeft(all, old(visited.Marked()), visited.Marked());
        ghost var before := visited.Marked();
        Browse(refs[i].target, refs[i].isInverse, node, all, stack, i);
        if overrun {
          return;
        }
        FollowedMore(g, AnyKind, node, i, before, visited.Marked());
      }
    }

    /** The check as its callers make it: a new result, and whatever array earlier checks have left.
        A positive answer is always right. From a fresh array, and where ids are unique, it is given
        exactly for the nodes below the Server node. A node whose id is in the array already is
        denied, wherever it is. The array is overrun only if fewer slots are free than there are ids below the
        Server node that are not marked, and from a fresh array and with unique ids exactly then. */
    method InSubtree(node: NodeId) returns (r: bool)
      requires visited.Valid() && !overrun
      modifies this`searchedFor, this`result, this`overrun, visited`cntr, visited.ids
      ensures var below, before := BelowIds(g, AnyKind, SERVER), old(visited.Marked());
              && visited.Valid() && before <= visited.Marked() <= before + below
              && visited.cntr - |visited.Marked()| == old(visited.cntr) - |before|
              && (overrun ==> visited.ids.Length - old(visited.cntr) < |before + below| - |before|)
              && (before == {} && UniqueIds(g) ==> (overrun <==> old(visited.cntr) + |below| > visited.ids.Length))
              && (before == {} && UniqueIds(g) && !overrun ==> visited.Marked() == below)
      ensures r ==> Below(g, AnyKind, SERVER, node) && node.id in visited.Marked()
      ensures old(visited.Marked()) == {} && UniqueIds(g) && !overrun ==> (r <==> Below(g, AnyKind, SERVER, node))
      ensures node.id in old(visited.Marked()) ==> !r
      ensures r ==> exists ref :: ref in Refs(g, NodeId(0, 2253)) && !ref.isInverse
      ensures old(visited.Marked()) == {} && UniqueIds(g) && !overrun ==>
                forall ref :: ref in Refs(g, NodeId(0, 2253)) && ref.target == node && !ref.isInverse ==> r
    {
      hide Visited.Marked, BelowIds, Reaches, Targets, UniqueIds, Complete, Below, Followed, Edge;
      hide Closed, Refs, IsPath, Visited.Valid;
      searchedFor := node;
      result := false;
      ReachesSelf(g, AnyKind, SERVER);
      NothingVisited(g, node);
      ForEachChild(SERVER, visited.Marked() + BelowIds(g, AnyKind, SERVER), {});
      r := result;
      if SoFar({}) && UniqueIds(g) && !overrun {
        AnswerIffBelow(g, node, visited.Marked(), r);
        VisitedAll(g, node, visited.Marked(), r);
        WithinLength(visited);
        if old(visited.Marked()) == {} {
          assert {} + BelowIds(g, AnyKind, SERVER) == BelowIds(g, AnyKind, SERVER) == visited.Marked();
        }
      }
      BelowServer(g, node);
    }

    /** One check after the other, from a fresh array. Where ids are unique the first answer is right, and all
        later ones are negative: whatever is below the Server node has been visited by then. */
    method InSubtreeEach(nodes: seq<NodeId>) returns (rs: seq<bool>)
      requires visited.Valid() && !overrun && visited.Marked() == {}
      modifies this`searchedFor, this`result, this`overrun, visited`cntr, visited.ids
      ensures |rs| <= |nodes| && (!overrun ==> |rs| == |nodes|)
      ensures forall k :: 0 <= k < |rs| && rs[k] ==> Below(g, AnyKind, SERVER, nodes[k])
      ensures UniqueIds(g) && nodes != [] ==>
                (overrun <==> old(visited.cntr) + |BelowIds(g, AnyKind, SERVER)| > visited.ids.Length)
      ensures UniqueIds(g) ==>
                forall k :: 0 <= k < |rs| ==> (rs[k] <==> k == 0 && Below(g, AnyKind, SERVER, nodes[k]))
    {
      hide Visited.Marked, Visited.Valid, BelowIds, Below, UniqueIds;
      ghost var below := BelowIds(g, AnyKind, SERVER);
      rs := [];
      for i := 0 to |nodes|
        invariant visited.Valid() && !overrun && |rs| == i && visited.Marked() <= below
        invariant UniqueIds(g) ==> visited.Marked() == if i == 0 then {} else below
        invariant visited.cntr - |visited.Marked()| == old(visited.cntr)
        invariant UniqueIds(g) && i > 0 ==> old(visited.cntr) + |below| <= visited.ids.Length
        invariant forall k :: 0 <= k < i && rs[k] ==> Below(g, AnyKind, SERVER, nodes[k])
        invariant UniqueIds(g) ==> forall k :: 0 <= k < i ==> (rs[k] <==> k == 0 && Below(g, AnyKind, SERVER, nodes[k]))
      {
        WithinLength(visited);
        assert below + below == below;
        var r := InSubtree(nodes[i]);
        if overrun {
          return;
        }
        rs := rs + [r];
      }
    }
  }
}
