/** The reference graph of an address space, reachability in it, and the array of visited ids. */
module Graphs {

  /** A numeric node id: a 16-bit namespace index and a 32-bit identifier. */
  datatype NodeId = NodeId(ns: nat, id: nat)

  datatype Reference = Reference(target: NodeId, isInverse: bool, refType: nat)

  type Graph = map<NodeId, seq<Reference>>

  /** The references that the library iterates over for a node; none if the node does not exist. */
  function Refs(g: Graph, n: NodeId): seq<Reference> {
    if n in g then g[n] else []
  }

  /** zkUA_hierarchicalReference: HasChild, Organizes, HasEventSource, Aggregates, HasSubtype, HasProperty,
      HasComponent, HasNotifier, HasOrderedComponent, HasHistoricalConfiguration. */
  predicate Hierarchical(refType: nat) {
    refType in {34, 35, 36, 44, 45, 46, 47, 48, 49, 56}
  }

  /** A kind of reference to follow. */
  type Kind = nat -> bool

  predicate AnyKind(refType: nat) {
    true
  }

  /** The root folder and the Server node. */
  const ROOT := NodeId(0, 84)
  const SERVER := NodeId(0, 2253)

  /** Node n has a forward reference of the given kind to c. */
  predicate Edge(g: Graph, kind: Kind, n: NodeId, c: NodeId) {
    exists i :: 0 <= i < |Refs(g, n)| && Refs(g, n)[i].target == c && !Refs(g, n)[i].isInverse
        && kind(Refs(g, n)[i].refType)
  }

  /** The nodes that references lead to. */
  function Targets(g: Graph): set<NodeId> {
    set n, i | n in g && 0 <= i < |g[n]| :: g[n][i].target
  }

  /** No two nodes that references lead to share an id, and none has id 0. */
  ghost predicate UniqueIds(g: Graph) {
    && (forall t :: t in Targets(g) ==> t.id != 0)
    && forall t, u :: t in Targets(g) && u in Targets(g) && t.id == u.id ==> t == u
  }

  lemma RefIsTarget(g: Graph, n: NodeId, i: nat)
    requires i < |Refs(g, n)|
    ensures Refs(g, n)[i].target in Targets(g)
  {
  }

  // ---------- Reachability ----------

  ghost predicate IsPath(g: Graph, kind: Kind, p: seq<NodeId>) {
    p != [] && forall i :: 0 <= i < |p| - 1 ==> Edge(g, kind, p[i], p[i + 1])
  }

  ghost predicate Reaches(g: Graph, kind: Kind, a: NodeId, b: NodeId) {
    exists p :: IsPath(g, kind, p) && p[0] == a && p[|p| - 1] == b
  }

  /** By one or more references. */
  ghost predicate Below(g: Graph, kind: Kind, a: NodeId, b: NodeId) {
    exists n :: Reaches(g, kind, a, n) && Edge(g, kind, n, b)
  }

  /** The ids of the nodes below a root. */
  ghost function BelowIds(g: Graph, kind: Kind, root: NodeId): set<nat> {
    set t | t in Targets(g) && Below(g, kind, root, t) :: t.id
  }

  lemma BelowIdsAt(g: Graph, kind: Kind, root: NodeId, n: NodeId, i: nat)
    requires Reaches(g, kind, root, n)
    requires i < |Refs(g, n)| && !Refs(g, n)[i].isInverse && kind(Refs(g, n)[i].refType)
    ensures Refs(g, n)[i].target.id in BelowIds(g, kind, root)
  {
    EdgeAt(g, kind, n, i);
    RefIsTarget(g, n, i);
  }

  lemma ReachesSelf(g: Graph, kind: Kind, a: NodeId)
    ensures Reaches(g, kind, a, a)
  {
    assert IsPath(g, kind, [a]);
  }

  lemma ExtendPath(g: Graph, kind: Kind, p: seq<NodeId>, b: NodeId)
    requires IsPath(g, kind, p) && Edge(g, kind, p[|p| - 1], b)
    ensures IsPath(g, kind, p + [b])
  {
  }

  lemma ReachesStep(g: Graph, kind: Kind, a: NodeId, n: NodeId, b: NodeId)
    requires Reaches(g, kind, a, n) && Edge(g, kind, n, b)
    ensures Reaches(g, kind, a, b)
  {
    var p :| IsPath(g, kind, p) && p[0] == a && p[|p| - 1] == n;
    ExtendPath(g, kind, p, b);
    assert (p + [b])[0] == a;
  }

  /** What holds of the successors of a path's first node, and passes from every node but stop to
      its successors, holds of every later node of the path, or at least of stop. */
  lemma {:induction false} ClosedAlongPath(g: Graph, kind: Kind, p: seq<NodeId>, k: nat, good: NodeId -> bool,
                                           stop: NodeId)
    requires IsPath(g, kind, p) && 0 < k < |p|
    requires forall c :: Edge(g, kind, p[0], c) ==> good(c)
    requires forall n, c :: good(n) && n != stop && Edge(g, kind, n, c) ==> good(c)
    ensures good(p[k]) || good(stop)
  {
    assert Edge(g, kind, p[k - 1], p[k - 1 + 1]);
    if k > 1 {
      ClosedAlongPath(g, kind, p, k - 1, good, stop);
    }
  }

  // ---------- Depth-first search, as values ----------

  /** Where ids are unique: every marked node has its children marked, except the nodes on the stack
      and the nodes at which the search stops. */
  ghost predicate Closed(g: Graph, kind: Kind, marked: set<nat>, stack: set<NodeId>, stops: set<NodeId>) {
    UniqueIds(g) ==>
      forall n, c :: n in Targets(g) && n.id in marked && n !in stack && n !in stops && Edge(g, kind, n, c) ==>
          c.id in marked
  }

  /** Where ids are unique: the first k references of n lead to marked nodes, if they are to be followed. */
  ghost predicate Followed(g: Graph, kind: Kind, n: NodeId, k: nat, marked: set<nat>) {
    UniqueIds(g) ==>
      forall j :: 0 <= j < k && j < |Refs(g, n)| && !Refs(g, n)[j].isInverse && kind(Refs(g, n)[j].refType) ==>
        Refs(g, n)[j].target.id in marked
  }

  lemma ClosedPush(g: Graph, kind: Kind, marked: set<nat>, stack: set<NodeId>, stops: set<NodeId>, child: NodeId)
    requires Closed(g, kind, marked, stack, stops) && child in Targets(g)
    ensures Closed(g, kind, marked + {child.id}, stack + {child}, stops)
    ensures child in stops ==> Closed(g, kind, marked + {child.id}, stack, stops)
  {
  }

  lemma ClosedPop(g: Graph, kind: Kind, marked: set<nat>, stack: set<NodeId>, stops: set<NodeId>, child: NodeId)
    requires Closed(g, kind, marked, stack + {child}, stops) && Followed(g, kind, child, |Refs(g, child)|, marked)
    ensures Closed(g, kind, marked, stack, stops)
  {
  }

  lemma FollowedNone(g: Graph, kind: Kind, n: NodeId, marked: set<nat>)
    ensures Followed(g, kind, n, 0, marked)
  {
  }

  lemma FollowedMore(g: Graph, kind: Kind, n: NodeId, k: nat, marked: set<nat>, marked': set<nat>)
    requires Followed(g, kind, n, k, marked) && marked <= marked' && k < |Refs(g, n)|
    requires UniqueIds(g) && !Refs(g, n)[k].isInverse && kind(Refs(g, n)[k].refType) ==>
        Refs(g, n)[k].target.id in marked'
    ensures Followed(g, kind, n, k + 1, marked')
  {
  }

  lemma FollowedAll(g: Graph, kind: Kind, n: NodeId, marked: set<nat>)
    requires UniqueIds(g) && Followed(g, kind, n, |Refs(g, n)|, marked)
    ensures forall c :: Edge(g, kind, n, c) ==> c.id in marked
  {
  }

  lemma ClosedSpreads(g: Graph, kind: Kind, marked: set<nat>, stops: set<NodeId>, b: NodeId)
    requires UniqueIds(g) && Closed(g, kind, marked, {}, stops) && stops <= {b}
    ensures forall n, c :: n in Targets(g) && n.id in marked && n != b && Edge(g, kind, n, c) ==> c.id in marked
  {
  }

  /** A finished search that stops at most at b has marked b if b is below its root. */
  lemma MarkedBelow(g: Graph, kind: Kind, root: NodeId, marked: set<nat>, stops: set<NodeId>, b: NodeId)
    requires UniqueIds(g) && Closed(g, kind, marked, {}, stops) && stops <= {b}
    requires Followed(g, kind, root, |Refs(g, root)|, marked) && Below(g, kind, root, b)
    ensures b.id in marked
  {
    hide Closed, Followed, Edge, Targets, UniqueIds;
    var good := (m: NodeId) => m in Targets(g) && m.id in marked;
    FollowedAll(g, kind, root, marked);
    EdgeTargets(g, kind);
    ClosedSpreads(g, kind, marked, stops, b);
    var n :| Reaches(g, kind, root, n) && Edge(g, kind, n, b);
    var p :| IsPath(g, kind, p) && p[0] == root && p[|p| - 1] == n;
    ExtendPath(g, kind, p, b);
    ClosedAlongPath(g, kind, p + [b], |p|, good, b);
  }

  /** A finished search has marked all ids below its root. */
  lemma AllMarked(g: Graph, kind: Kind, root: NodeId, marked: set<nat>)
    requires UniqueIds(g) && Closed(g, kind, marked, {}, {}) && Followed(g, kind, root, |Refs(g, root)|, marked)
    ensures BelowIds(g, kind, root) <= marked
  {
    hide Closed, Followed, UniqueIds, Targets, Below;
    forall t | t in Targets(g) && Below(g, kind, root, t)
      ensures t.id in marked
    {
      MarkedBelow(g, kind, root, marked, {}, t);
    }
  }

  /** What a reference of the root leads to is below it. */
  lemma DirectlyBelow(g: Graph, kind: Kind, root: NodeId, r: Reference)
    requires r in Refs(g, root) && !r.isInverse && kind(r.refType)
    ensures Below(g, kind, root, r.target)
  {
    var i :| 0 <= i < |Refs(g, root)| && Refs(g, root)[i] == r;
    EdgeAt(g, kind, root, i);
    ReachesSelf(g, kind, root);
  }

  /** Nothing is below a root without forward references of the kind. */
  lemma BelowNeedsReference(g: Graph, kind: Kind, root: NodeId, n: NodeId)
    requires Below(g, kind, root, n)
    ensures exists r :: r in Refs(g, root) && !r.isInverse && kind(r.refType)
  {
    var p: NodeId :| Reaches(g, kind, root, p) && Edge(g, kind, p, n);
    var path :| IsPath(g, kind, path) && path[0] == root && path[|path| - 1] == p;
    var c := if |path| > 1 then path[1] else n;
    assert Edge(g, kind, root, c) by {
      if |path| > 1 {
        assert Edge(g, kind, path[0], path[0 + 1]);
      }
    }
    var i :| 0 <= i < |Refs(g, root)| && Refs(g, root)[i].target == c && !Refs(g, root)[i].isInverse
             && kind(Refs(g, root)[i].refType);
    assert Refs(g, root)[i] in Refs(g, root);
  }

  lemma EdgeTargets(g: Graph, kind: Kind)
    ensures forall n, c :: Edge(g, kind, n, c) ==> c in Targets(g)
  {
  }

  lemma EdgeAt(g: Graph, kind: Kind, n: NodeId, i: nat)
    requires i < |Refs(g, n)| && !Refs(g, n)[i].isInverse && kind(Refs(g, n)[i].refType)
    ensures Edge(g, kind, n, Refs(g, n)[i].target)
  {
  }

  lemma UniqueIdsNonzero(g: Graph, t: NodeId)
    requires t in Targets(g)
    ensures UniqueIds(g) ==> t.id != 0
  {
  }

  lemma MarkShrinks(all: set<nat>, marked: set<nat>, id: nat)
    requires id in all && id !in marked
    ensures |all - (marked + {id})| + 1 == |all - marked|
  {
    assert all - marked == (all - (marked + {id})) + {id};
  }

  lemma FewerMarked(all: set<nat>, marked: set<nat>, id: nat)
    requires marked <= all && id in all && id !in marked
    ensures |marked| < |all|
  {
    SmallerSet(marked + {id}, all);
    assert |marked + {id}| == |marked| + 1;
  }

  lemma SmallerSet(a: set<nat>, b: set<nat>)
    requires a <= b
    ensures |a| <= |b|
  {
    assert b == a + (b - a);
  }

  lemma LessLeft(all: set<nat>, marked: set<nat>, marked': set<nat>)
    requires marked <= marked'
    ensures |all - marked'| <= |all - marked|
  {
    assert all - marked == (all - marked') + ((all - marked) * marked');
  }

  /** The fixed array of visited ids and the counter of the next free slot. The counter is never set
      back, not even when the array is cleared. */
  class Visited {
    var ids: array<nat>
    var cntr: nat

    /** Free slots hold 0. */
    ghost predicate Valid()
      reads this, ids
    {
      cntr <= ids.Length && forall j :: cntr <= j < ids.Length ==> ids[j] == 0
    }

    /** The ids other than 0 in the array. */
    ghost function Marked(): set<nat>
      reads this, ids
    {
      set j | 0 <= j < ids.Length && ids[j] != 0 :: ids[j]
    }

    constructor (capacity: nat)
      ensures Valid() && Marked() == {} && cntr == 0 && ids.Length == capacity && fresh(ids)
    {
      ids := new nat[capacity](_ => 0);
      cntr := 0;
    }

    /** Set every slot to 0; the counter stays. */
    method Clear()
      requires Valid()
      modifies ids
      ensures Valid() && Marked() == {}
    {
      for i := 0 to ids.Length
        invariant forall j :: 0 <= j < i ==> ids[j] == 0
        invariant forall j :: cntr <= j < ids.Length ==> ids[j] == 0
      {
        ids[i] := 0;
      }
    }

    /** The loop over the whole array: while a slot holds 0, id 0 counts as visited. */
    method Seen(id: nat) returns (b: bool)
      requires Valid()
      ensures b <==> id in ids[..]
      ensures b ==> id == 0 || id in Marked()
      ensures id in Marked() || (id == 0 && cntr < ids.Length) ==> b
    {
      for j := 0 to ids.Length
        invariant forall k :: 0 <= k < j ==> ids[k] != id
      {
        if ids[j] == id {
          return true;
        }
      }
      assert cntr < ids.Length ==> ids[cntr] == 0;
      return false;
    }

    method Mark(id: nat)
      requires Valid() && cntr < ids.Length && id != 0
      modifies this`cntr, ids
      ensures Valid() && cntr == old(cntr) + 1
      ensures Marked() == old(Marked()) + {id}
    {
      ids[cntr] := id;
      assert ids[cntr] in Marked();
      assert forall j :: 0 <= j < ids.Length && j != cntr ==> ids[j] == old(ids[j]);
      cntr := cntr + 1;
      forall x | x in old(Marked())
        ensures x in Marked()
      {
        var j :| 0 <= j < ids.Length && old(ids[j]) != 0 && old(ids[j]) == x;
        assert ids[j] == x;
      }
    }
  }

  lemma WithinLength(visited: Visited)
    requires visited.Valid()
    ensures visited.cntr <= visited.ids.Length
  {
  }
}
