/** The iterator over a chained hash table, which may unlink entries while it walks. */
module Iterators {
  import opened Sequences
  import opened Table
  import opened TableLemmas
  import opened HashTables

  /** The entries from position pos of chain i on, in bucket order. */
  function From<K, V>(b: Buckets<K, V>, i: nat, pos: nat): seq<Cell<K, V>>
    requires i < |b| && pos <= |b[i]|
  {
    b[i][pos..] + Flat(b[i + 1..])
  }

  /** The entries before position pos of chain i, in bucket order. */
  function Before<K, V>(b: Buckets<K, V>, i: nat, pos: nat): seq<Cell<K, V>>
    requires i < |b| && pos <= |b[i]|
  {
    Flat(b[..i]) + b[i][..pos]
  }

  lemma Regroup<T>(w: seq<T>, x: seq<T>, y: seq<T>, z: seq<T>)
    ensures (w + x) + (y + z) == w + (x + y) + z
  {
  }

  lemma BeforeFrom<K, V>(b: Buckets<K, V>, i: nat, pos: nat)
    requires i < |b| && pos <= |b[i]|
    ensures Before(b, i, pos) + From(b, i, pos) == Flat(b)
  {
    hide Flat;
    FlatSplit(b, i);
    assert b[i] == b[i][..pos] + b[i][pos..];
    Regroup(Flat(b[..i]), b[i][..pos], b[i][pos..], Flat(b[i + 1..]));
  }

  /** Skipping the empty chains from i to j skips nothing. */
  lemma {:induction false} SkipEmpty<K, V>(b: Buckets<K, V>, i: nat, j: nat)
    requires i <= j <= |b| && forall x :: i <= x < j ==> b[x] == []
    ensures Flat(b[i..]) == Flat(b[j..])
    ensures Flat(b[..i]) == Flat(b[..j])
    decreases j - i
  {
    if i < j {
      SkipEmpty(b, i + 1, j);
      assert b[i..][1..] == b[i + 1..];
      FlatSplit(b[..i + 1], i);
      assert b[..i + 1][..i] == b[..i] && b[..i + 1][i + 1..] == [];
    }
  }

  /** The end of chain i and the head of the next chain that is not empty are the same place. */
  lemma NextChain<K, V>(b: Buckets<K, V>, i: nat, j: nat)
    requires i < j <= |b| && forall x :: i < x < j ==> b[x] == []
    ensures j < |b| ==> From(b, i, |b[i]|) == From(b, j, 0) && Before(b, i, |b[i]|) == Before(b, j, 0)
    ensures j == |b| ==> From(b, i, |b[i]|) == [] && Before(b, i, |b[i]|) == Flat(b)
  {
    hide Flat, From, Before;
    SkipEmpty(b, i + 1, j);
    AtEnd(b, i);
    if j < |b| {
      AtHead(b, j);
    } else {
      assert b[..j] == b && b[j..] == [];
      FlatNothing<K, V>();
    }
  }

  lemma AtEnd<K, V>(b: Buckets<K, V>, i: nat)
    requires i < |b|
    ensures From(b, i, |b[i]|) == Flat(b[i + 1..]) && Before(b, i, |b[i]|) == Flat(b[..i + 1])
  {
    FlatSplit(b[..i + 1], i);
    assert b[..i + 1][..i] == b[..i] && b[..i + 1][i + 1..] == [];
  }

  lemma AtHead<K, V>(b: Buckets<K, V>, i: nat)
    requires i < |b|
    ensures From(b, i, 0) == Flat(b[i..]) && Before(b, i, 0) == Flat(b[..i])
  {
    assert b[i..][1..] == b[i + 1..];
  }

  lemma FlatNothing<K, V>()
    ensures Flat<K, V>([]) == []
  {
  }

  lemma PassOne<K, V>(b: Buckets<K, V>, i: nat, pos: nat)
    requires i < |b| && pos < |b[i]|
    ensures From(b, i, pos) == [b[i][pos]] + From(b, i, pos + 1)
    ensures Before(b, i, pos + 1) == Before(b, i, pos) + [b[i][pos]]
  {
  }

  lemma UnlinkOne<K, V>(t: State<K, V>, i: nat, pos: nat)
    requires i < |t.buckets| && pos < |t.buckets[i]|
    ensures var b' := Unlink(t, i, pos).buckets;
            && From(b', i, pos) == From(t.buckets, i, pos)[1..]
            && Before(b', i, pos) == Before(t.buckets, i, pos)
  {
  }

  // ---------- Whole iterations ----------

  /** What an iteration has passed and left in the table, and what it has still to come to. */
  datatype Position<+K, +V> = Position(passed: seq<Cell<K, V>>, remaining: seq<Cell<K, V>>)

  /** The current entry is passed, or unlinked. */
  datatype Move = Pass | Drop

  function MoveOn<K, V>(p: Position<K, V>, m: Move): Position<K, V>
    requires p.remaining != []
  {
    Position(if m == Pass then p.passed + [p.remaining[0]] else p.passed, p.remaining[1..])
  }

  function Iterate<K, V>(p: Position<K, V>, moves: seq<Move>): Position<K, V>
    requires |moves| <= |p.remaining|
    decreases |moves|
  {
    if moves == [] then p else Iterate(MoveOn(p, moves[0]), moves[1..])
  }

  /** The cells that the moves pass. */
  function Surviving<K, V>(cells: seq<Cell<K, V>>, moves: seq<Move>): seq<Cell<K, V>>
    requires |moves| <= |cells|
  {
    if moves == [] then []
    else (if moves[0] == Pass then [cells[0]] else []) + Surviving(cells[1..], moves[1..])
  }

  /** Whatever is passed and whatever is unlinked on the way, an iteration comes to every entry once and
      in order: after k moves it stands before the k-th entry of the table as it was at the beginning,
      and of the first k exactly those that were passed are left, in their order. */
  lemma {:induction false} IterationIsExact<K, V>(p: Position<K, V>, moves: seq<Move>)
    requires |moves| <= |p.remaining|
    ensures Iterate(p, moves) == Position(p.passed + Surviving(p.remaining, moves), p.remaining[|moves|..])
    decreases |moves|
  {
    if moves != [] {
      IterationIsExact(MoveOn(p, moves[0]), moves[1..]);
      assert p.remaining[1..][|moves| - 1..] == p.remaining[|moves|..];
    }
  }

  lemma {:induction false} IterateOneMore<K, V>(p: Position<K, V>, moves: seq<Move>, i: nat)
    requires i < |moves| <= |p.remaining|
    ensures Iterate(p, moves[..i]).remaining != []
    ensures Iterate(p, moves[..i + 1]) == MoveOn(Iterate(p, moves[..i]), moves[i])
    decreases i
  {
    IterationIsExact(p, moves[..i]);
    if i > 0 {
      assert moves[..i][1..] == moves[1..][..i - 1] && moves[..i + 1][1..] == moves[1..][..i];
      IterateOneMore(MoveOn(p, moves[0]), moves[1..], i - 1);
    } else {
      assert moves[..1][1..] == [];
    }
  }

  class HashTableItr<K, V> {
    var h: HashTable<K, V>
    var e: Entry?<K, V>
    var parent: Entry?<K, V>
    var index: nat
    ghost var pos: nat

    /** The current entry is the one at position pos of chain index, and parent is the entry
        before it in its chain, null at the head. */
    ghost predicate Valid()
      reads this, h, h.table, h.nodes
    {
      && h.Valid()
      && |h.chains| == |h.buckets|
      && (e != null ==> At(h.chains, h.buckets))
    }

    ghost predicate At(chains: seq<seq<Entry<K, V>>>, b: Buckets<K, V>)
      reads this
      requires |chains| == |b|
    {
      && index < |chains| && pos < |chains[index]| && |chains[index]| == |b[index]|
      && e == chains[index][pos]
      && parent == if pos == 0 then null else chains[index][pos - 1]
    }

    /** What the iterator has not passed yet, the current entry first. */
    ghost function Remaining(): seq<Cell<K, V>>
      requires Valid()
      reads this, h, h.table, h.nodes
    {
      if e == null then [] else From(h.buckets, index, pos)
    }

    /** What the iterator has passed and left in the table. */
    ghost function Passed(): seq<Cell<K, V>>
      requires Valid()
      reads this, h, h.table, h.nodes
    {
      if e == null then Flat(h.buckets) else Before(h.buckets, index, pos)
    }

    ghost function Place(): Position<K, V>
      requires Valid()
      reads this, h, h.table, h.nodes
    {
      Position(Passed(), Remaining())
    }

    /** hashtable_iterator */
    constructor (h: HashTable<K, V>)
      requires h.Valid()
      ensures Valid() && this.h == h
      ensures Place() == Position([], Flat(h.buckets))
    {
      hide Placed, Hashed, Represents;
      Lengths(h.table, h.chains, h.buckets, h.nodes);
      this.h := h;
      e := null;
      parent := null;
      index := h.table.Length;
      pos := 0;
      new;
      if h.entrycount == 0 {
        return;
      }
      var i := 0;
      while i < h.table.Length
        invariant 0 <= i <= h.table.Length
        invariant e == null && parent == null && pos == 0 && this.h == h
        invariant forall x :: 0 <= x < i ==> h.buckets[x] == []
      {
        Slot(h.table, h.chains, h.buckets, h.nodes, i);
        if h.table[i] != null {
          e := h.table[i];
          index := i;
          break;
        }
        i := i + 1;
      }
      SkipEmpty(h.buckets, 0, i);
      assert h.buckets[0..] == h.buckets && h.buckets[..0] == [];
      assert h.buckets[i..][1..] == h.buckets[i + 1..];
    }

    /** Go to the entry after e, which is the one at position q of the current chain if there is one. */
    method Step(ghost q: nat) returns (r: int)
      requires h.Valid() && e != null
      requires index < |h.chains| == |h.buckets| && q <= |h.chains[index]| == |h.buckets[index]|
      requires e.next == if q < |h.chains[index]| then h.chains[index][q] else null
      modifies this
      ensures h == old(h) && (r != 0 <==> e != null)
      ensures r != 0 <==> From(h.buckets, old(index), q) != []
      ensures e != null ==> index < |h.chains| && pos < |h.chains[index]| && |h.chains[index]| == |h.buckets[index]|
                                && e == h.chains[index][pos]
      ensures e != null ==> if index == old(index) then pos == q && parent == old(e) else pos == 0 && parent == null
      ensures var left := From(h.buckets, old(index), q);
              if e == null then left == [] && Before(h.buckets, old(index), q) == Flat(h.buckets)
              else
                && From(h.buckets, index, pos) == left
                && Before(h.buckets, index, pos) == Before(h.buckets, old(index), q)
    {
      hide Placed, Hashed, Represents;
      Lengths(h.table, h.chains, h.buckets, h.nodes);
      var next := e.next;
      if next != null {
        parent := e;
        e := next;
        pos := q;
        return -1;
      }
      var tablelength := h.table.Length;
      parent := null;
      pos := 0;
      ghost var i := index;
      index := index + 1;
      var j := index;
      if tablelength <= j {
        NextChain(h.buckets, i, j);
        e := null;
        return 0;
      }
      Slot(h.table, h.chains, h.buckets, h.nodes, j);
      next := h.table[j];
      while next == null
        invariant h == old(h) && e == old(e) && parent == null && pos == 0
        invariant i < j < tablelength && next == h.table[j]
        invariant next == if h.chains[j] == [] then null else h.chains[j][0]
        invariant forall x :: i < x < j ==> h.buckets[x] == []
        decreases tablelength - j
      {
        j := j + 1;
        if j >= tablelength {
          NextChain(h.buckets, i, j);
          index := tablelength;
          e := null;
          return 0;
        }
        Slot(h.table, h.chains, h.buckets, h.nodes, j);
        next := h.table[j];
      }
      NextChain(h.buckets, i, j);
      index := j;
      e := next;
      return -1;
    }

    /** hashtable_iterator_advance: pass the current entry. */
    method Advance() returns (r: int)
      requires Valid()
      modifies this
      ensures Valid() && h == old(h) && (r != 0 <==> Remaining() != [])
      ensures old(e) == null ==> e == null && old(Remaining()) == [] && Place() == old(Place())
      ensures old(e) != null ==>
                && old(Remaining()) != [] && old(Remaining())[0] == old(e).Cell()
                && Place() == MoveOn(old(Place()), Pass)
    {
      if e == null {
        return 0;
      }
      hide Placed, Hashed, Represents, From, Before, Flat;
      Holds(h.table, h.chains, h.buckets, h.nodes, index, pos);
      PassOne(h.buckets, index, pos);
      r := Step(pos + 1);
    }

    /** hashtable_iterator_remove: unlink the current entry and go to the next. */
    method Remove() returns (r: int)
      requires Valid() && e != null
      modifies this, h, h.table, h.nodes
      ensures Valid() && h == old(h) && (r != 0 <==> Remaining() != [])
      ensures old(Remaining()) != [] && old(Remaining())[0] == old(e).Cell() && Place() == MoveOn(old(Place()), Drop)
      ensures h.Model() == Unlink(old(h.Model()), old(index), old(pos))
      ensures h.table == old(h.table) && h.nodes == old(h.nodes) - {old(e)}
    {
      hide Placed, Hashed, Represents, From, Before, Flat;
      Holds(h.table, h.chains, h.buckets, h.nodes, index, pos);
      UnlinkOne(h.Model(), index, pos);
      PassOne(h.buckets, index, pos);
      var remembered, rememberedParent := e, parent;
      h.UnlinkAt(index, parent, e, pos);
      r := Step(pos);
      if parent == remembered {
        parent := rememberedParent;
      }
    }

    /** The whole table is what the iterator has passed and what it has still to come to. */
    lemma PlaceIsWhole()
      requires Valid()
      ensures Passed() + Remaining() == Flat(h.buckets)
    {
      if e != null {
        BeforeFrom(h.buckets, index, pos);
      }
    }

    /** An iteration driven by arbitrary moves: what it passes stays in the table, in order, what it drops
        is gone, and what it has not come to is as it was. */
    method Follow(moves: seq<Move>)
      requires Valid() && |moves| <= |Remaining()|
      modifies this, h, h.table, h.nodes
      ensures Valid() && h == old(h) && h.table == old(h.table) && h.nodes <= old(h.nodes)
      ensures Place() == Iterate(old(Place()), moves)
      ensures Flat(h.buckets) == old(Passed()) + Surviving(old(Remaining()), moves) + old(Remaining())[|moves|..]
    {
      hide Placed, Hashed, Represents, From, Before, Flat, HashTable.Valid, Valid, At;
      ghost var start := Place();
      IterationIsExact(start, moves[..0]);
      for i := 0 to |moves|
        invariant Valid() && h == old(h) && h.table == old(h.table) && h.nodes <= old(h.nodes)
        invariant Place() == Iterate(start, moves[..i])
      {
        IterationIsExact(start, moves[..i]);
        IterateOneMore(start, moves, i);
        RemainingIsThere();
        if moves[i] == Pass {
          var _ := Advance();
        } else {
          var _ := Remove();
        }
      }
      assert moves[..|moves|] == moves;
      IterationIsExact(start, moves);
      PlaceIsWhole();
    }

    lemma RemainingIsThere()
      requires Valid()
      ensures e == null ==> Remaining() == []
    {
    }

    /** hashtable_iterator_search: stand on the entry a search of table t would answer with. */
    method Search(t: HashTable<K, V>, q: K) returns (r: int)
      requires t.Valid()
      modifies this
      ensures r != 0 <==> Entries(t.cfg, t.Model(), q) != []
      ensures r == 0 ==> h == old(h) && e == old(e) && parent == old(parent) && index == old(index) && pos == old(pos)
      ensures r != 0 ==> Valid() && h == t && e != null && e.Cell() == Entries(t.cfg, t.Model(), q)[0]
      ensures r != 0 ==> index == IndexFor(|t.buckets|, t.cfg.hash(q)) && pos == FirstMatch(t.cfg, q, t.buckets[index])
    {
      hide Placed, Hashed, Represents, Filter, Flat;
      InOneChain(t.cfg.Matching<V>(q), t.cfg.hash(q), t.buckets);
      var i, before, found, j := t.Walk(q);
      FirstMatchHeads(t.cfg, q, t.buckets[i]);
      if found == null {
        return 0;
      }
      index, e, parent, h, pos := i, found, before, t, j;
      return -1;
    }
  }
}
