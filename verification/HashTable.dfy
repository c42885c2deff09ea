/** The chained hash table: an array of chains of linked entries, updated in place. */
module HashTables {
  import opened Sequences
  import opened Table
  import opened TableLemmas
  import opened Growth

  class Entry<K, V> {
    const h: nat
    const k: K
    const v: V
    var next: Entry?<K, V>

    constructor (h: nat, k: K, v: V, next: Entry?<K, V>)
      ensures this.h == h && this.k == k && this.v == v && this.next == next
    {
      this.h, this.k, this.v, this.next := h, k, v, next;
    }

    function Cell(): Cell<K, V> {
      Table.Cell(h, k, v)
    }
  }

  function After<K, V>(ch: seq<Entry<K, V>>, j: nat): Entry?<K, V> {
    if j + 1 < |ch| then ch[j + 1] else null
  }

  /** head starts a chain that consists of exactly the entries ch and holds the cells cs. */
  ghost predicate Linked<K, V>(head: Entry?<K, V>, ch: seq<Entry<K, V>>, cs: seq<Cell<K, V>>)
    reads ch
  {
    && |ch| == |cs|
    && head == (if ch == [] then null else ch[0])
    && (forall j :: 0 <= j < |ch| ==> ch[j].next == After(ch, j))
    && (forall j :: 0 <= j < |ch| ==> cs[j] == ch[j].Cell())
    && (forall j, j' :: 0 <= j < j' < |ch| ==> ch[j] != ch[j'])
  }

  lemma LinkedTail<K, V>(e: Entry<K, V>, ch: seq<Entry<K, V>>, cs: seq<Cell<K, V>>)
    requires Linked(e, ch, cs)
    ensures ch != [] && e == ch[0] && cs[0] == e.Cell() && e !in ch[1..]
    ensures Linked(e.next, ch[1..], cs[1..])
  {
  }

  lemma LinkedCons<K, V>(e: Entry<K, V>, ch: seq<Entry<K, V>>, cs: seq<Cell<K, V>>)
    requires Linked(e.next, ch, cs) && e !in ch
    ensures Linked(e, [e] + ch, [e.Cell()] + cs)
  {
  }

  /** Every slot of tbl starts the chain that chains and b say; all entries belong to own. */
  ghost predicate Represents<K, V>(tbl: array<Entry?<K, V>>, chains: seq<seq<Entry<K, V>>>, b: Buckets<K, V>,
                                   own: set<Entry<K, V>>)
    reads tbl, own
  {
    && |chains| == |b| == tbl.Length
    && (forall i, j :: 0 <= i < |chains| && 0 <= j < |chains[i]| ==> chains[i][j] in own)
    && (forall i :: 0 <= i < |chains| ==> Linked(tbl[i], chains[i], b[i]))
  }

  lemma Lengths<K, V>(tbl: array<Entry?<K, V>>, chains: seq<seq<Entry<K, V>>>, b: Buckets<K, V>, own: set<Entry<K, V>>)
    requires Represents(tbl, chains, b, own)
    ensures |chains| == |b| == tbl.Length
    ensures forall i :: 0 <= i < |chains| ==> |chains[i]| == |b[i]|
  {
  }

  lemma Slot<K, V>(tbl: array<Entry?<K, V>>, chains: seq<seq<Entry<K, V>>>, b: Buckets<K, V>, own: set<Entry<K, V>>,
                   i: nat)
    requires Represents(tbl, chains, b, own) && i < tbl.Length
    ensures |chains| == |b| == tbl.Length && |chains[i]| == |b[i]|
    ensures tbl[i] == if chains[i] == [] then null else chains[i][0]
    ensures tbl[i] != null ==> tbl[i] in own
  {
  }

  lemma Holds<K, V>(tbl: array<Entry?<K, V>>, chains: seq<seq<Entry<K, V>>>, b: Buckets<K, V>, own: set<Entry<K, V>>,
                    i: nat, j: nat)
    requires Represents(tbl, chains, b, own) && i < |chains| && j < |chains[i]|
    ensures |chains| == |b| && |chains[i]| == |b[i]|
    ensures b[i][j] == chains[i][j].Cell() && chains[i][j].next == After(chains[i], j)
  {
  }

  /** Entries of different chains are different objects, because their hashes select different buckets. */
  lemma ChainsDisjoint<K, V>(tbl: array<Entry?<K, V>>, chains: seq<seq<Entry<K, V>>>, b: Buckets<K, V>,
                             own: set<Entry<K, V>>, i: nat, j: nat)
    requires Represents(tbl, chains, b, own) && Placed(b)
    requires i < |chains| && j < |chains[i]|
    ensures forall i', j' :: 0 <= i' < |chains| && i' != i && 0 <= j' < |chains[i']| ==> chains[i'][j'] != chains[i][j]
  {
  }

  /** With the chains before i empty, the head of chain i is the first entry of the whole table. */
  lemma FlatHead<K, V>(b: Buckets<K, V>, i: nat)
    requires i < |b| && b[i] != [] && forall i' :: 0 <= i' < i ==> b[i'] == []
    ensures Flat(b) == [b[i][0]] + Flat(b[i := b[i][1..]])
  {
    FlatSplit(b, i);
    FlatUpdate(b, i, b[i][1..]);
    FlatEmpty(b[..i]);
    assert b[i] == [b[i][0]] + b[i][1..];
  }

  /** Take the head of chain i off its chain. */
  method DetachHead<K, V>(tbl: array<Entry?<K, V>>, i: nat, e: Entry<K, V>, ghost chains: seq<seq<Entry<K, V>>>,
                          ghost b: Buckets<K, V>, ghost own: set<Entry<K, V>>)
    returns (ghost chains': seq<seq<Entry<K, V>>>)
    requires Represents(tbl, chains, b, own) && Placed(b)
    requires i < tbl.Length && tbl[i] == e
    modifies tbl
    ensures e in own && b[i] != [] && b[i][0] == e.Cell() && chains[i] != []
    ensures chains' == chains[i := chains[i][1..]]
    ensures Represents(tbl, chains', b[i := b[i][1..]], own - {e})
  {
    ChainsDisjoint(tbl, chains, b, own, i, 0);
    LinkedTail(e, chains[i], b[i]);
    chains' := chains[i := chains[i][1..]];
    tbl[i] := e.next;
  }

  /** A chain whose pointer before position j has been redirected past position j. */
  lemma Relinked<K, V>(head: Entry?<K, V>, ch: seq<Entry<K, V>>, cs: seq<Cell<K, V>>, j: nat)
    requires |ch| == |cs| && 0 < j < |ch| && head == ch[0]
    requires forall x :: 0 <= x < |ch| ==> cs[x] == ch[x].Cell()
    requires forall x, y :: 0 <= x < y < |ch| ==> ch[x] != ch[y]
    requires ch[j - 1].next == After(ch, j)
    requires forall x :: 0 <= x < |ch| && x != j - 1 ==> ch[x].next == After(ch, x)
    ensures Linked(head, ch[..j] + ch[j + 1..], cs[..j] + cs[j + 1..])
  {
  }

  /** Redirect the pointer that leads to e, the entry at position j of chain i, past it. */
  method UnlinkEntry<K, V>(tbl: array<Entry?<K, V>>, i: nat, prev: Entry?<K, V>, e: Entry<K, V>, ghost j: nat,
                           ghost chains: seq<seq<Entry<K, V>>>, ghost b: Buckets<K, V>, ghost own: set<Entry<K, V>>)
    returns (ghost chains': seq<seq<Entry<K, V>>>)
    requires Represents(tbl, chains, b, own) && Placed(b)
    requires i < |chains| && j < |chains[i]|
    requires e == chains[i][j] && prev == if j == 0 then null else chains[i][j - 1]
    modifies tbl, own
    ensures chains' == chains[i := chains[i][..j] + chains[i][j + 1..]]
    ensures Represents(tbl, chains', b[i := b[i][..j] + b[i][j + 1..]], own - {e})
    ensures e.next == old(e.next)
  {
    if prev == null {
      assert chains[i][..0] + chains[i][1..] == chains[i][1..];
      assert Linked(tbl[i], chains[i], b[i]) && b[i][..0] + b[i][1..] == b[i][1..];
      chains' := DetachHead(tbl, i, e, chains, b, own);
    } else {
      chains' := UnlinkAfter(tbl, i, prev, e, j, chains, b, own);
    }
  }

  lemma OwnedWithout<K, V>(tbl: array<Entry?<K, V>>, chains: seq<seq<Entry<K, V>>>, b: Buckets<K, V>,
                           own: set<Entry<K, V>>, chains': seq<seq<Entry<K, V>>>, i: nat, j: nat)
    requires Represents(tbl, chains, b, own) && Placed(b)
    requires i < |chains| && 0 < j < |chains[i]| && chains' == chains[i := chains[i][..j] + chains[i][j + 1..]]
    ensures forall i', j' :: 0 <= i' < |chains'| && 0 <= j' < |chains'[i']| ==> chains'[i'][j'] in own - {chains[i][j]}
    ensures forall i' :: 0 <= i' < |chains| && i' != i ==> chains[i][j - 1] !in chains[i']
  {
  }

  method UnlinkAfter<K, V>(tbl: array<Entry?<K, V>>, i: nat, prev: Entry<K, V>, e: Entry<K, V>, ghost j: nat,
                           ghost chains: seq<seq<Entry<K, V>>>, ghost b: Buckets<K, V>, ghost own: set<Entry<K, V>>)
    returns (ghost chains': seq<seq<Entry<K, V>>>)
    requires Represents(tbl, chains, b, own) && Placed(b)
    requires i < |chains| && 0 < j < |chains[i]|
    requires e == chains[i][j] && prev == chains[i][j - 1]
    modifies prev
    ensures chains' == chains[i := chains[i][..j] + chains[i][j + 1..]]
    ensures Represents(tbl, chains', b[i := b[i][..j] + b[i][j + 1..]], own - {e})
    ensures e.next == old(e.next)
  {
    hide Placed;
    chains' := chains[i := chains[i][..j] + chains[i][j + 1..]];
    OwnedWithout(tbl, chains, b, own, chains', i, j);
    assert e.next == After(chains[i], j) && Linked(tbl[i], chains[i], b[i]);
    prev.next := e.next;
    Relinked(tbl[i], chains[i], b[i], j);
  }

  /** Link entry e at the head of the chain its hash selects. */
  method AttachHead<K, V>(tbl: array<Entry?<K, V>>, e: Entry<K, V>, ghost chains: seq<seq<Entry<K, V>>>,
                          ghost b: Buckets<K, V>, ghost own: set<Entry<K, V>>)
    returns (ghost chains': seq<seq<Entry<K, V>>>)
    requires tbl.Length > 0 && e !in own
    requires Represents(tbl, chains, b, own)
    modifies tbl, e
    ensures Represents(tbl, chains', Push(b, e.Cell()), own + {e})
  {
    var index := IndexFor(tbl.Length, e.h);
    chains' := chains[index := [e] + chains[index]];
    e.next := tbl[index];
    tbl[index] := e;
    assert forall i :: 0 <= i < |chains| ==> e !in chains[i];
    LinkedCons(e, chains[index], b[index]);
  }

  /** In the middle of a rehash, as values: the chains before i are empty, and pushing what is left
      in sb onto db gives the table that is aimed at. */
  ghost predicate Remains<K, V>(sb: Buckets<K, V>, so: set<Entry<K, V>>, db: Buckets<K, V>, dn: set<Entry<K, V>>,
                                own: set<Entry<K, V>>, target: Buckets<K, V>, i: nat)
  {
    && Placed(sb) && |db| > 0 && i <= |sb|
    && so !! dn && so + dn == own
    && (forall i' :: 0 <= i' < i ==> sb[i'] == [])
    && PushAll(db, Flat(sb)) == target
  }

  ghost predicate InTransit<K, V>(src: array<Entry?<K, V>>, dst: array<Entry?<K, V>>,
                                  sc: seq<seq<Entry<K, V>>>, sb: Buckets<K, V>, so: set<Entry<K, V>>,
                                  dc: seq<seq<Entry<K, V>>>, db: Buckets<K, V>, dn: set<Entry<K, V>>,
                                  own: set<Entry<K, V>>, target: Buckets<K, V>, i: nat)
    reads src, dst, so, dn
  {
    Represents(src, sc, sb, so) && Represents(dst, dc, db, dn) && Remains(sb, so, db, dn, own, target, i)
  }

  lemma RemainsStep<K, V>(sb: Buckets<K, V>, so: set<Entry<K, V>>, db: Buckets<K, V>, dn: set<Entry<K, V>>,
                          own: set<Entry<K, V>>, target: Buckets<K, V>, i: nat, e: Entry<K, V>)
    requires Remains(sb, so, db, dn, own, target, i)
    requires i < |sb| && sb[i] != [] && sb[i][0] == e.Cell() && e in so
    ensures Remains(sb[i := sb[i][1..]], so - {e}, Push(db, e.Cell()), dn + {e}, own, target, i)
  {
    FlatHead(sb, i);
  }

  /** One step of a rehash: the head e of chain i of src goes to the head of its chain of dst. */
  method Transfer<K, V>(src: array<Entry?<K, V>>, dst: array<Entry?<K, V>>, i: nat, e: Entry<K, V>,
                        ghost sc: seq<seq<Entry<K, V>>>, ghost sb: Buckets<K, V>, ghost so: set<Entry<K, V>>,
                        ghost dc: seq<seq<Entry<K, V>>>, ghost db: Buckets<K, V>, ghost dn: set<Entry<K, V>>,
                        ghost own: set<Entry<K, V>>, ghost target: Buckets<K, V>)
    returns (ghost sc': seq<seq<Entry<K, V>>>, ghost dc': seq<seq<Entry<K, V>>>)
    requires src != dst && i < src.Length && src[i] == e
    requires InTransit(src, dst, sc, sb, so, dc, db, dn, own, target, i)
    modifies src, dst, e
    ensures e in own && sb[i] != []
    ensures InTransit(src, dst, sc', sb[i := sb[i][1..]], so - {e}, dc', Push(db, e.Cell()), dn + {e}, own, target, i)
  {
    sc' := DetachHead(src, i, e, sc, sb, so);
    RemainsStep(sb, so, db, dn, own, target, i, e);
    dc' := AttachHead(dst, e, dc, db, dn);
  }

  /** The inner loop of a rehash: empty chain i of src. */
  method TransferChain<K, V>(src: array<Entry?<K, V>>, dst: array<Entry?<K, V>>, i: nat,
                             ghost sc: seq<seq<Entry<K, V>>>, ghost sb: Buckets<K, V>, ghost so: set<Entry<K, V>>,
                             ghost dc: seq<seq<Entry<K, V>>>, ghost db: Buckets<K, V>, ghost dn: set<Entry<K, V>>,
                             ghost own: set<Entry<K, V>>, ghost target: Buckets<K, V>)
    returns (ghost sc': seq<seq<Entry<K, V>>>, ghost sb': Buckets<K, V>, ghost so': set<Entry<K, V>>,
             ghost dc': seq<seq<Entry<K, V>>>, ghost db': Buckets<K, V>, ghost dn': set<Entry<K, V>>)
    requires src != dst && i < src.Length
    requires InTransit(src, dst, sc, sb, so, dc, db, dn, own, target, i)
    modifies src, dst, own
    ensures InTransit(src, dst, sc', sb', so', dc', db', dn', own, target, i + 1)
  {
    hide Represents, Placed, Flat, PushAll;
    sc', sb', so', dc', db', dn' := sc, sb, so, dc, db, dn;
    Slot(src, sc', sb', so', i);
    while src[i] != null
      invariant InTransit(src, dst, sc', sb', so', dc', db', dn', own, target, i)
      invariant i < |sb'| && (if src[i] == null then sb'[i] == [] else src[i] in own)
      decreases |sb'[i]|
    {
      var e: Entry<K, V> := src[i];
      sc', dc' := Transfer(src, dst, i, e, sc', sb', so', dc', db', dn', own, target);
      sb', db', so', dn' := sb'[i := sb'[i][1..]], Push(db', e.Cell()), so' - {e}, dn' + {e};
      Slot(src, sc', sb', so', i);
    }
  }

  /** The allocating branch of a rehash: a new table of n chains, to which the entries of src go
      one by one, in bucket order. */
  method TransferAll<K, V>(src: array<Entry?<K, V>>, n: nat,
                           ghost chains: seq<seq<Entry<K, V>>>, ghost b: Buckets<K, V>, ghost own: set<Entry<K, V>>)
    returns (dst: array<Entry?<K, V>>, ghost newchains: seq<seq<Entry<K, V>>>)
    requires n > 0 && Represents(src, chains, b, own) && Placed(b)
    modifies src, own
    ensures fresh(dst) && Represents(dst, newchains, Rehash(b, n), own)
  {
    dst := new Entry?<K, V>[n](_ => null);
    newchains := seq(n, _ => []);
    ghost var sc, sb, so := chains, b, own;
    ghost var db: Buckets<K, V>, dn: set<Entry<K, V>> := Empty(n), {};
    var i := 0;
    while i < src.Length
      invariant fresh(dst) && 0 <= i <= src.Length
      invariant InTransit(src, dst, sc, sb, so, newchains, db, dn, own, Rehash(b, n), i)
    {
      sc, sb, so, newchains, db, dn := TransferChain(src, dst, i, sc, sb, so, newchains, db, dn, own, Rehash(b, n));
      i := i + 1;
    }
    FlatEmpty(sb);
  }

  class HashTable<K, V> {
    const cfg: Config<K>
    var table: array<Entry?<K, V>>
    var entrycount: int
    var loadlimit: nat
    var primeindex: nat

    // the linked structure: the entries of each chain, what they hold, and all of them together
    ghost var chains: seq<seq<Entry<K, V>>>
    ghost var buckets: Buckets<K, V>
    ghost var nodes: set<Entry<K, V>>

    /** Everything but the entry count. */
    ghost predicate Structured()
      reads this, table, nodes
    {
      Represents(table, chains, buckets, nodes) && Shaped(cfg, Model())
    }

    ghost predicate Valid()
      reads this, table, nodes
      ensures Valid() ==> Table.Valid(cfg, Model())
    {
      Structured() && entrycount == |Flat(buckets)|
    }

    /** The abstract value of the table. */
    ghost function Model(): State<K, V>
      reads this
    {
      State(buckets, primeindex, loadlimit, entrycount)
    }

    /** create_hashtable, for a size that the list of primes covers: the least prime above it. */
    constructor (cfg: Config<K>, minsize: nat)
      requires cfg.Sound() && exists p :: 0 <= p < |cfg.primes| && cfg.primes[p] > minsize
      ensures Valid() && this.cfg == cfg
      ensures Model() == Create(cfg, primeindex)
      ensures cfg.primes[primeindex] > minsize && forall p :: 0 <= p < primeindex ==> cfg.primes[p] <= minsize
      ensures fresh(table) && fresh(nodes)
    {
      var pindex, size := 0, cfg.primes[0];
      while pindex < |cfg.primes|
        invariant 0 <= pindex <= |cfg.primes|
        invariant forall p :: 0 <= p < pindex ==> cfg.primes[p] <= minsize
      {
        if cfg.primes[pindex] > minsize {
          size := cfg.primes[pindex];
          break;
        }
        pindex := pindex + 1;
      }
      this.cfg := cfg;
      table := new Entry?<K, V>[size](_ => null);
      primeindex := pindex;
      entrycount := 0;
      loadlimit := cfg.limitOf(size);
      chains := seq(size, _ => []);
      buckets := Empty(size);
      nodes := {};
      new;
      CreateCorrect<K, V>(cfg, pindex);
    }

    /** hashtable_expand: transfer every entry to a table of the next prime's length. */
    method Expand(memory: bool) returns (r: int)
      requires Structured()
      modifies this, table, nodes
      ensures Structured() && nodes == old(nodes)
      ensures table == old(table) || fresh(table)
      ensures r != 0 <==> old(primeindex) < |cfg.primes| - 1 && memory
      ensures Model() == Table.Expand(cfg, old(Model()), memory)
      ensures r != 0 ==>
                && primeindex == old(primeindex) + 1 && table.Length == cfg.primes[old(primeindex) + 1]
                && loadlimit == cfg.limitOf(table.Length) && entrycount == old(entrycount)
      ensures r == 0 ==> Model() == old(Model())
    {
      hide Placed, Hashed, Represents;
      if primeindex == |cfg.primes| - 1 {
        return 0;
      }
      var newsize := cfg.primes[primeindex + 1];
      if !memory {
        return 0;
      }
      ghost var target := Rehash(buckets, newsize);
      assert Placed(target) && Hashed(cfg, target) by {
        RehashCorrect(cfg, buckets, newsize);
      }
      ghost var newchains;
      table, newchains := TransferAll(table, newsize, chains, buckets, nodes);
      primeindex, loadlimit := primeindex + 1, cfg.limitOf(newsize);
      chains, buckets := newchains, target;
      return -1;
    }

    /** hashtable_insert: allows duplicate keys; expands first when the load limit is passed. */
    method Insert(k: K, v: V, tableMemory: bool, entryMemory: bool) returns (r: int)
      requires Valid()
      modifies this, table, nodes
      ensures Valid()
      ensures table == old(table) || fresh(table)
      ensures fresh(nodes - old(nodes))
      ensures r != 0 <==> entryMemory
      ensures Model() == Table.Insert(cfg, old(Model()), k, v, tableMemory, entryMemory)
      ensures entrycount == old(entrycount) + if entryMemory then 1 else 0
      ensures var moves := old(entrycount) >= old(loadlimit) && old(primeindex) + 1 < |cfg.primes| && tableMemory;
              primeindex == old(primeindex) + (if moves then 1 else 0) && table.Length == cfg.primes[primeindex]
    {
      hide Placed, Hashed, Represents;
      assert Table.Valid(cfg, Table.Insert(cfg, Model(), k, v, tableMemory, entryMemory)) by {
        InsertCorrect(cfg, Model(), k, v, tableMemory, entryMemory);
      }
      InsertGrows(cfg, Model(), k, v, tableMemory, entryMemory);
      entrycount := entrycount + 1;
      if entrycount > loadlimit {
        var _ := Expand(tableMemory);
      }
      Lengths(table, chains, buckets, nodes);
      if !entryMemory {
        entrycount := entrycount - 1;
        return 0;
      }
      LinkNew(k, v);
      return -1;
    }

    /** Allocate an entry and link it at the head of its chain. */
    method LinkNew(k: K, v: V)
      requires Structured()
      modifies this, table
      ensures Structured() && table == old(table) && fresh(nodes - old(nodes))
      ensures Model() == old(Model()).(buckets := Push(old(buckets), Table.Cell(cfg.hash(k), k, v)))
    {
      hide Placed, Hashed, Represents;
      Lengths(table, chains, buckets, nodes);
      PushKeeps(cfg, buckets, Table.Cell(cfg.hash(k), k, v));
      var e := new Entry(cfg.hash(k), k, v, null);
      chains := AttachHead(table, e, chains, buckets, nodes);
      buckets, nodes := Push(buckets, e.Cell()), nodes + {e};
    }

    /** The walk that search, remove and the iterator's search share: follow q's chain to its first
        entry that matches, remembering the entry before it. */
    method Walk(q: K) returns (index: nat, prev: Entry?<K, V>, e: Entry?<K, V>, ghost j: nat)
      requires Valid()
      ensures index == IndexFor(|buckets|, cfg.hash(q)) && |chains| == |buckets| && |chains[index]| == |buckets[index]|
      ensures j == FirstMatch(cfg, q, buckets[index])
      ensures e == (if j < |chains[index]| then chains[index][j] else null)
      ensures prev == if j == 0 then null else chains[index][j - 1]
      ensures e != null ==> e.Cell() == buckets[index][j]
    {
      hide IndexFor, Placed, Hashed, Represents;
      Lengths(table, chains, buckets, nodes);
      var hashvalue := cfg.hash(q);
      index := IndexFor(table.Length, hashvalue);
      Slot(table, chains, buckets, nodes, index);
      prev, e, j := null, table[index], 0;
      ghost var chain := chains[index];
      while e != null
        invariant 0 <= j <= |chain| && e == if j < |chain| then chain[j] else null
        invariant prev == if j == 0 then null else chain[j - 1]
        invariant forall i :: 0 <= i < j ==> !cfg.Matches(q, buckets[index][i])
        decreases |chain| - j
      {
        Holds(table, chains, buckets, nodes, index, j);
        if hashvalue == e.h && cfg.eq(q, e.k) {
          break;
        }
        prev := e;
        e := e.next;
        j := j + 1;
      }
    }

    /** hashtable_search */
    method Search(q: K) returns (r: Option<V>)
      requires Valid()
      ensures r == Table.Search(cfg, Model(), q)
    {
      var _, _, e, _ := Walk(q);
      return if e == null then None else Some(e.v);
    }

    /** hashtable_remove: unlink the first entry of the chain that matches and answer its value. */
    method Remove(q: K) returns (r: Option<V>)
      requires Valid()
      modifies this, table, nodes
      ensures Valid() && table == old(table) && nodes <= old(nodes)
      ensures r == Table.Search(cfg, old(Model()), q)
      ensures Model() == Table.Remove(cfg, old(Model()), q)
    {
      var index, prev, e, j := Walk(q);
      hide Placed, Hashed, Represents;
      if e == null {
        return None;
      }
      r := Some(e.v);
      UnlinkAt(index, prev, e, j);
    }

    /** Redirect the pointer that leads to e, the entry at position j of chain i, past it. */
    method UnlinkAt(i: nat, prev: Entry?<K, V>, e: Entry<K, V>, ghost j: nat)
      requires Valid() && i < |chains| && j < |chains[i]|
      requires e == chains[i][j] && prev == if j == 0 then null else chains[i][j - 1]
      modifies this, table, nodes
      ensures Valid() && table == old(table) && nodes == old(nodes) - {e}
      ensures Model() == Unlink(old(Model()), i, j)
      ensures chains == old(chains)[i := old(chains)[i][..j] + old(chains)[i][j + 1..]]
      ensures e.next == old(e.next)
    {
      hide Placed, Hashed, Represents;
      Lengths(table, chains, buckets, nodes);
      assert Table.Valid(cfg, Unlink(Model(), i, j)) by {
        UnlinkCorrect(cfg, Model(), i, j);
      }
      chains := UnlinkEntry(table, i, prev, e, j, chains, buckets, nodes);
      buckets := buckets[i := buckets[i][..j] + buckets[i][j + 1..]];
      nodes := nodes - {e};
      entrycount := entrycount - 1;
    }
  }
}
