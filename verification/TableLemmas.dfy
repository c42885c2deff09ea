/** The table refines a multimap: what create, insert, rehash, search and remove do to the entries
    that match a key, for any hash function and any key equality. */
module TableLemmas {
  import opened Sequences
  import opened Table

  /** The entries that match q, in the order in which a search meets them. */
  function Entries<K, V>(cfg: Config<K>, t: State<K, V>, q: K): seq<Cell<K, V>> {
    Filter(cfg.Matching(q), Flat(t.buckets))
  }

  // ---------- Flat ----------

  lemma {:induction false} FlatSplit<K, V>(b: Buckets<K, V>, i: nat)
    requires i < |b|
    ensures Flat(b) == Flat(b[..i]) + b[i] + Flat(b[i + 1..])
  {
    if i == 0 {
      assert b[..0] == [];
    } else {
      FlatSplit(b[1..], i - 1);
      assert b[1..][..i - 1] == b[..i][1..];
      assert b[1..][i..] == b[i + 1..];
    }
  }

  lemma FlatUpdate<K, V>(b: Buckets<K, V>, i: nat, chain: seq<Cell<K, V>>)
    requires i < |b|
    ensures Flat(b[i := chain]) == Flat(b[..i]) + chain + Flat(b[i + 1..])
  {
    FlatSplit(b[i := chain], i);
    assert b[i := chain][..i] == b[..i];
    assert b[i := chain][i + 1..] == b[i + 1..];
  }

  /** If p fails outside chain x, then what p selects from the whole table it selects from chain x. */
  lemma {:induction false} FlatOnly<K, V>(p: Cell<K, V> -> bool, b: Buckets<K, V>, x: int)
    requires forall i, j :: 0 <= i < |b| && i != x && 0 <= j < |b[i]| ==> !p(b[i][j])
    ensures Filter(p, Flat(b)) == if 0 <= x < |b| then Filter(p, b[x]) else []
  {
    if b != [] {
      var rest := b[1..];
      assert forall i :: 0 <= i < |rest| ==> rest[i] == b[i + 1];
      FlatOnly(p, rest, x - 1);
      FilterConcat(p, b[0], Flat(rest));
      if x != 0 {
        FilterNone(p, b[0]);
      }
    }
  }

  lemma {:induction false} FlatEmpty<K, V>(b: Buckets<K, V>)
    requires forall i :: 0 <= i < |b| ==> b[i] == []
    ensures Flat(b) == []
  {
    if b != [] {
      FlatEmpty(b[1..]);
    }
  }

  /** Entries that all carry hash h are found in one chain. */
  lemma InOneChain<K, V>(p: Cell<K, V> -> bool, h: nat, b: Buckets<K, V>)
    requires Placed(b)
    requires forall c :: p(c) ==> c.h == h
    ensures Filter(p, Flat(b)) == Filter(p, b[IndexFor(|b|, h)])
  {
    FlatOnly(p, b, IndexFor(|b|, h));
  }

  lemma EntriesOfChain<K, V>(cfg: Config<K>, t: State<K, V>, q: K)
    requires Valid(cfg, t)
    ensures |t.buckets| > 0 && Entries(cfg, t, q) == Filter(cfg.Matching(q), Chain(cfg, t, q))
  {
    InOneChain(cfg.Matching(q), cfg.hash(q), t.buckets);
  }

  /** The first match of a chain heads its matches. */
  lemma {:induction false} FirstMatchHeads<K, V>(cfg: Config<K>, q: K, chain: seq<Cell<K, V>>)
    ensures var m, j := Filter(cfg.Matching(q), chain), FirstMatch(cfg, q, chain);
            && (m == [] <==> j == |chain|)
            && (m != [] ==> m[0] == chain[j] && Filter(cfg.Matching(q), chain[..j] + chain[j + 1..]) == m[1..])
  {
    if chain != [] {
      var j := FirstMatch(cfg, q, chain);
      if cfg.Matches(q, chain[0]) {
        assert chain[..0] + chain[1..] == chain[1..];
      } else {
        FirstMatchHeads(cfg, q, chain[1..]);
        if j < |chain| {
          var rest := chain[1..];
          assert (chain[..j] + chain[j + 1..])[1..] == rest[..j - 1] + rest[j..];
        }
      }
    }
  }

  // ---------- Rehash ----------

  /** What PushAll leaves in one chain: the arrivals for it in reverse, before what was there. */
  lemma {:induction false} PushAllBucket<K, V>(b: Buckets<K, V>, cs: seq<Cell<K, V>>, i: nat)
    requires i < |b|
    ensures PushAll(b, cs)[i] == Reverse(Filter(InBucket(|b|, i), cs)) + b[i]
    decreases |cs|
  {
    if cs != [] {
      PushAllBucket(Push(b, cs[0]), cs[1..], i);
      if IndexFor(|b|, cs[0].h) == i {
        var rest := Filter(InBucket(|b|, i), cs[1..]);
        assert ([cs[0]] + rest)[1..] == rest;
        assert Reverse(rest) + ([cs[0]] + b[i]) == (Reverse(rest) + [cs[0]]) + b[i];
      }
    }
  }

  lemma PushMultiset<K, V>(b: Buckets<K, V>, c: Cell<K, V>)
    requires |b| > 0
    ensures multiset(Flat(Push(b, c))) == multiset(Flat(b)) + multiset{c}
    ensures |Flat(Push(b, c))| == |Flat(b)| + 1
  {
    var i := IndexFor(|b|, c.h);
    FlatSplit(b, i);
    FlatUpdate(b, i, [c] + b[i]);
  }

  lemma {:induction false} PushAllMultiset<K, V>(b: Buckets<K, V>, cs: seq<Cell<K, V>>)
    requires |b| > 0
    ensures multiset(Flat(PushAll(b, cs))) == multiset(Flat(b)) + multiset(cs)
    ensures |Flat(PushAll(b, cs))| == |Flat(b)| + |cs|
    decreases |cs|
  {
    if cs != [] {
      PushMultiset(b, cs[0]);
      PushAllMultiset(Push(b, cs[0]), cs[1..]);
      assert cs == [cs[0]] + cs[1..];
    }
  }

  lemma PushKeeps<K, V>(cfg: Config<K>, b: Buckets<K, V>, c: Cell<K, V>)
    requires Placed(b) && Hashed(cfg, b) && c.h == cfg.hash(c.k)
    ensures Placed(Push(b, c)) && Hashed(cfg, Push(b, c))
  {
  }

  lemma {:induction false} PushAllKeeps<K, V>(cfg: Config<K>, b: Buckets<K, V>, cs: seq<Cell<K, V>>)
    requires Placed(b) && Hashed(cfg, b)
    requires forall i :: 0 <= i < |cs| ==> cs[i].h == cfg.hash(cs[i].k)
    ensures Placed(PushAll(b, cs)) && Hashed(cfg, PushAll(b, cs))
    decreases |cs|
  {
    if cs != [] {
      PushKeeps(cfg, b, cs[0]);
      PushAllKeeps(cfg, Push(b, cs[0]), cs[1..]);
    }
  }

  lemma {:induction false} FlatHashed<K, V>(cfg: Config<K>, b: Buckets<K, V>)
    requires Hashed(cfg, b)
    ensures forall i :: 0 <= i < |Flat(b)| ==> Flat(b)[i].h == cfg.hash(Flat(b)[i].k)
  {
    if b != [] {
      assert forall i :: 0 <= i < |b[1..]| ==> b[1..][i] == b[i + 1];
      FlatHashed(cfg, b[1..]);
    }
  }

  /** Rehashing keeps the multiset of entries, re-establishes the bucket invariant for the new
      length, and exactly reverses the order in which the entries of a key are met. */
  lemma RehashCorrect<K, V>(cfg: Config<K>, b: Buckets<K, V>, n: nat)
    requires Placed(b) && Hashed(cfg, b) && n > 0
    ensures var r := Rehash(b, n);
            && Placed(r) && Hashed(cfg, r)
            && multiset(Flat(r)) == multiset(Flat(b)) && |Flat(r)| == |Flat(b)|
            && forall q :: Filter(cfg.Matching<V>(q), Flat(r)) == Reverse(Filter(cfg.Matching<V>(q), Flat(b)))
  {
    var e, r := Empty<K, V>(n), Rehash(b, n);
    FlatHashed(cfg, b);
    PushAllKeeps(cfg, e, Flat(b));
    FlatEmpty(e);
    PushAllMultiset(e, Flat(b));
    forall q
      ensures Filter(cfg.Matching<V>(q), Flat(r)) == Reverse(Filter(cfg.Matching<V>(q), Flat(b)))
    {
      RehashReverses(cfg.Matching(q), cfg.hash(q), b, n);
    }
  }

  /** Entries with the same hash that lay in one order in a chain lie in the opposite order afterwards. */
  lemma RehashReverses<K, V>(p: Cell<K, V> -> bool, h: nat, b: Buckets<K, V>, n: nat)
    requires Placed(b) && n > 0 && Placed(Rehash(b, n))
    requires forall c :: p(c) ==> c.h == h
    ensures Filter(p, Rehash(b, n)[IndexFor(n, h)]) == Reverse(Filter(p, b[IndexFor(|b|, h)]))
    ensures Filter(p, Flat(Rehash(b, n))) == Reverse(Filter(p, Flat(b)))
  {
    var w := InBucket<K, V>(n, IndexFor(n, h));
    InOneChain(p, h, b);
    InOneChain(p, h, Rehash(b, n));
    PushAllBucket(Empty(n), Flat(b), IndexFor(n, h));
    assert Rehash(b, n)[IndexFor(n, h)] == Reverse(Filter(w, Flat(b)));
    FilterReverse(p, Filter(w, Flat(b)));
    FilterWeaker(p, w, Flat(b));
  }

  // ---------- Operations ----------

  lemma ExpandCorrect<K, V>(cfg: Config<K>, t: State<K, V>, tableMemory: bool)
    requires Valid(cfg, t)
    ensures var t' := Expand(cfg, t, tableMemory);
            && Valid(cfg, t') && t'.entrycount == t.entrycount
            && multiset(Flat(t'.buckets)) == multiset(Flat(t.buckets))
            && forall q :: Entries(cfg, t', q) ==
                 if t.primeindex < |cfg.primes| - 1 && tableMemory then Reverse(Entries(cfg, t, q))
                 else Entries(cfg, t, q)
  {
    if t.primeindex < |cfg.primes| - 1 && tableMemory {
      RehashCorrect(cfg, t.buckets, cfg.primes[t.primeindex + 1]);
    }
  }

  lemma PushEntries<K, V>(cfg: Config<K>, b: Buckets<K, V>, c: Cell<K, V>, q: K)
    requires Placed(b) && Placed(Push(b, c))
    ensures Filter(cfg.Matching(q), Flat(Push(b, c))) ==
            (if cfg.Matches(q, c) then [c] else []) + Filter(cfg.Matching(q), Flat(b))
  {
    var p, i := cfg.Matching<V>(q), IndexFor(|b|, cfg.hash(q));
    InOneChain(p, cfg.hash(q), b);
    InOneChain(p, cfg.hash(q), Push(b, c));
    if IndexFor(|b|, c.h) == i {
      assert ([c] + b[i])[1..] == b[i];
    }
  }

  /** An insertion puts the new entry in front of its key's entries, and reverses the older entries
      of every key exactly when it moved the table to a larger prime. */
  lemma InsertCorrect<K, V>(cfg: Config<K>, t: State<K, V>, k: K, v: V, tableMemory: bool, entryMemory: bool)
    requires Valid(cfg, t)
    ensures var t', c := Insert(cfg, t, k, v, tableMemory, entryMemory), Cell(cfg.hash(k), k, v);
            && Valid(cfg, t')
            && multiset(Flat(t'.buckets)) ==
                 multiset(Flat(t.buckets)) + (if entryMemory then multiset{c} else multiset{})
            && forall q :: Entries(cfg, t', q) ==
                 (if entryMemory && cfg.Matches(q, c) then [c] else []) +
                 (if Expands(cfg, t, tableMemory) then Reverse(Entries(cfg, t, q)) else Entries(cfg, t, q))
  {
    var c := Cell(cfg.hash(k), k, v);
    var t1 := if t.entrycount + 1 > t.loadlimit then Expand(cfg, t, tableMemory) else t;
    if t.entrycount + 1 > t.loadlimit {
      ExpandCorrect(cfg, t, tableMemory);
    }
    if entryMemory {
      PushKeeps(cfg, t1.buckets, c);
      PushMultiset(t1.buckets, c);
      forall q
        ensures Entries(cfg, Insert(cfg, t, k, v, tableMemory, entryMemory), q) ==
                (if cfg.Matches(q, c) then [c] else []) + Entries(cfg, t1, q)
      {
        PushEntries(cfg, t1.buckets, c, q);
      }
    }
  }

  /** A search answers with the first of the key's entries, and with nothing exactly when there is none. */
  lemma SearchCorrect<K, V>(cfg: Config<K>, t: State<K, V>, q: K)
    requires Valid(cfg, t)
    ensures var m := Entries(cfg, t, q);
            Search(cfg, t, q) == if m == [] then None else Some(m[0].v)
  {
    EntriesOfChain(cfg, t, q);
    FirstMatchHeads(cfg, q, Chain(cfg, t, q));
  }

  /** What was just inserted is what a search for its key finds. */
  lemma InsertIsFound<K, V>(cfg: Config<K>, t: State<K, V>, k: K, v: V, tableMemory: bool)
    requires Valid(cfg, t) && cfg.eq(k, k)
    ensures Valid(cfg, Insert(cfg, t, k, v, tableMemory, true))
    ensures Search(cfg, Insert(cfg, t, k, v, tableMemory, true), k) == Some(v)
  {
    hide Insert, Search, Entries;
    InsertCorrect(cfg, t, k, v, tableMemory, true);
    SearchCorrect(cfg, Insert(cfg, t, k, v, tableMemory, true), k);
  }

  /** Unlinking takes one entry out of the bucket order and moves nothing else. */
  lemma UnlinkFlat<K, V>(t: State<K, V>, i: nat, j: nat)
    requires i < |t.buckets| && j < |t.buckets[i]|
    ensures var before, after := Flat(t.buckets[..i]) + t.buckets[i][..j],
        t.buckets[i][j + 1..] + Flat(t.buckets[i + 1..]);
            && Flat(t.buckets) == before + [t.buckets[i][j]] + after
            && Flat(Unlink(t, i, j).buckets) == before + after
  {
    var chain := t.buckets[i];
    FlatSplit(t.buckets, i);
    FlatUpdate(t.buckets, i, chain[..j] + chain[j + 1..]);
    assert chain == chain[..j] + [chain[j]] + chain[j + 1..];
  }

  lemma UnlinkKeeps<K, V>(cfg: Config<K>, t: State<K, V>, i: nat, j: nat)
    requires Placed(t.buckets) && Hashed(cfg, t.buckets) && i < |t.buckets| && j < |t.buckets[i]|
    ensures Placed(Unlink(t, i, j).buckets) && Hashed(cfg, Unlink(t, i, j).buckets)
  {
    hide IndexFor;
    var b': Buckets<K, V> := Unlink(t, i, j).buckets;
    forall i', j' | 0 <= i' < |b'| && 0 <= j' < |b'[i']|
      ensures IndexFor(|b'|, b'[i'][j'].h) == i' && b'[i'][j'].h == cfg.hash(b'[i'][j'].k)
    {
      if i' == i {
        assert b'[i'][j'] == t.buckets[i][if j' < j then j' else j' + 1];
      }
    }
  }

  lemma UnlinkCorrect<K, V>(cfg: Config<K>, t: State<K, V>, i: nat, j: nat)
    requires Valid(cfg, t) && i < |t.buckets| && j < |t.buckets[i]|
    ensures var t', c := Unlink(t, i, j), t.buckets[i][j];
            && Valid(cfg, t')
            && multiset(Flat(t'.buckets)) == multiset(Flat(t.buckets)) - multiset{c}
            && forall q | !cfg.Matches(q, c) :: Entries(cfg, t', q) == Entries(cfg, t, q)
  {
    hide IndexFor, Placed, Hashed, Flat, Filter;
    var t': State<K, V>, c := Unlink(t, i, j), t.buckets[i][j];
    UnlinkFlat(t, i, j);
    UnlinkKeeps(cfg, t, i, j);
    var before, after := Flat(t.buckets[..i]) + t.buckets[i][..j], t.buckets[i][j + 1..] + Flat(t.buckets[i + 1..]);
    forall q | !cfg.Matches(q, c)
      ensures Entries(cfg, t', q) == Entries(cfg, t, q)
    {
      var p := cfg.Matching<V>(q);
      FilterConcat(p, before, after);
      FilterConcat(p, before + [c], after);
      FilterConcat(p, before, [c]);
      FilterNone(p, [c]);
    }
  }

  /** Remove unlinks exactly the entry a search would answer with; keys it does not match keep their entries. */
  lemma RemoveCorrect<K, V>(cfg: Config<K>, t: State<K, V>, q: K)
    requires Valid(cfg, t)
    ensures var t', m := Remove(cfg, t, q), Entries(cfg, t, q);
            && Valid(cfg, t')
            && (m == [] ==> t' == t)
            && (m != [] ==>
                  && multiset(Flat(t'.buckets)) == multiset(Flat(t.buckets)) - multiset{m[0]}
                  && Entries(cfg, t', q) == m[1..]
                  && forall q' | !cfg.Matches(q', m[0]) :: Entries(cfg, t', q') == Entries(cfg, t, q'))
  {
    hide IndexFor, Entries, Valid, FirstMatch;
    EntriesOfChain(cfg, t, q);
    var i, chain := IndexFor(|t.buckets|, cfg.hash(q)), Chain(cfg, t, q);
    var j := FirstMatch(cfg, q, chain);
    FirstMatchHeads(cfg, q, chain);
    if j < |chain| {
      UnlinkCorrect(cfg, t, i, j);
      EntriesOfChain(cfg, Unlink(t, i, j), q);
    }
  }

  // ---------- Refinement of a multimap, over every run ----------

  datatype Op<K, V> =
    | InsertOp(k: K, v: V, tableMemory: bool, entryMemory: bool)
    | SearchOp(q: K)
    | RemoveOp(q: K)

  /** One operation on the table and the value it answers with. */
  function Exec<K, V>(cfg: Config<K>, t: State<K, V>, op: Op<K, V>): (State<K, V>, Option<V>)
    requires cfg.Sound() && t.primeindex < |cfg.primes| && |t.buckets| > 0
  {
    match op
    case InsertOp(k, v, tm, em) => (Insert(cfg, t, k, v, tm, em), None)
    case SearchOp(q) => (t, Search(cfg, t, q))
    case RemoveOp(q) => (Remove(cfg, t, q), Search(cfg, t, q))
  }

  /** One operation on a multimap: a bag of entries that knows neither chains nor order. */
  ghost predicate MultimapStep<K(!new), V(!new)>(cfg: Config<K>, m: multiset<Cell<K, V>>, op: Op<K, V>,
                                                 answer: Option<V>, m': multiset<Cell<K, V>>)
  {
    match op
    case InsertOp(k, v, _, em) =>
      m' == m + (if em then multiset{Cell(cfg.hash(k), k, v)} else multiset{})
    case SearchOp(q) =>
      && m' == m
      && (answer == None <==> forall c :: c in m ==> !(c.h == cfg.hash(q) && cfg.eq(q, c.k)))
      && (answer.Some? ==> exists c :: c in m && c.h == cfg.hash(q) && cfg.eq(q, c.k) && c.v == answer.value)
    case RemoveOp(q) =>
      && (answer == None <==> forall c :: c in m ==> !(c.h == cfg.hash(q) && cfg.eq(q, c.k)))
      && (answer == None ==> m' == m)
      && (answer.Some? ==>
            exists c :: c in m && c.h == cfg.hash(q) && cfg.eq(q, c.k) && c.v == answer.value && m' == m - multiset{c})
  }

  lemma ExecRefines<K(!new), V(!new)>(cfg: Config<K>, t: State<K, V>, op: Op<K, V>)
    requires Valid(cfg, t)
    ensures var (t', answer) := Exec(cfg, t, op);
            Valid(cfg, t') && MultimapStep(cfg, multiset(Flat(t.buckets)), op, answer, multiset(Flat(t'.buckets)))
  {
    match op
    case InsertOp(k, v, tm, em) => InsertCorrect(cfg, t, k, v, tm, em);
    case SearchOp(q) =>
      EntriesAreMatches(cfg, t, q);
    case RemoveOp(q) =>
      EntriesAreMatches(cfg, t, q);
      RemoveCorrect(cfg, t, q);
  }

  lemma EntriesAreMatches<K(!new), V(!new)>(cfg: Config<K>, t: State<K, V>, q: K)
    requires Valid(cfg, t)
    ensures var m := Entries(cfg, t, q);
            && (m == [] <==> forall c :: c in multiset(Flat(t.buckets)) ==> !(c.h == cfg.hash(q) && cfg.eq(q, c.k)))
            && (m != [] ==> m[0] in multiset(Flat(t.buckets)) && m[0].h == cfg.hash(q) && cfg.eq(q, m[0].k))
            && Search(cfg, t, q) == if m == [] then None else Some(m[0].v)
  {
    SearchCorrect(cfg, t, q);
    var m, p := Entries(cfg, t, q), cfg.Matching<V>(q);
    forall c
      ensures c in m <==> c in multiset(Flat(t.buckets)) && cfg.Matches(q, c)
    {
      FilterIn(p, Flat(t.buckets), c);
    }
    if m != [] {
      assert m[0] in m;
    }
  }

  /** A whole run of the table, and its answers. */
  ghost function ExecAll<K(!new), V(!new)>(cfg: Config<K>, t: State<K, V>, ops: seq<Op<K, V>>)
    : (State<K, V>, seq<Option<V>>)
    requires Valid(cfg, t)
    decreases |ops|
  {
    if ops == [] then (t, [])
    else
      ExecRefines(cfg, t, ops[0]);
      var (t1, answer) := Exec(cfg, t, ops[0]);
      var (t2, answers) := ExecAll(cfg, t1, ops[1..]);
      (t2, [answer] + answers)
  }

  /** The multimap can give these answers to these operations and end as m'. */
  ghost predicate MultimapRun<K(!new), V(!new)>(cfg: Config<K>, m: multiset<Cell<K, V>>, ops: seq<Op<K, V>>,
                                                answers: seq<Option<V>>, m': multiset<Cell<K, V>>)
    decreases |ops|
  {
    if ops == [] then answers == [] && m' == m
    else
      && answers != []
      && exists m1 :: MultimapStep(cfg, m, ops[0], answers[0], m1) && MultimapRun(cfg, m1, ops[1..], answers[1..], m')
  }

  /** Every run of the table, from its creation on, is a run of the multimap with the same answers;
      the placement of entries, their stored hashes and the entry count stay right throughout. */
  lemma {:induction false} TableRefinesMultimap<K(!new), V(!new)>(cfg: Config<K>, t: State<K, V>, ops: seq<Op<K, V>>)
    requires Valid(cfg, t)
    ensures var (t', answers) := ExecAll(cfg, t, ops);
            && Valid(cfg, t')
            && MultimapRun(cfg, multiset(Flat(t.buckets)), ops, answers, multiset(Flat(t'.buckets)))
    decreases |ops|
  {
    if ops != [] {
      ExecRefines(cfg, t, ops[0]);
      var (t1, answer) := Exec(cfg, t, ops[0]);
      var (t2, answers) := ExecAll(cfg, t1, ops[1..]);
      TableRefinesMultimap(cfg, t1, ops[1..]);
      assert ([answer] + answers)[1..] == answers;
    }
  }

  /** The bucket of a hash is its residue: the hashes i, n + i, 2 * n + i, ... share bucket i. */
  lemma BucketIsResidue(n: nat, i: nat, k: nat)
    requires i < n
    ensures IndexFor(n, k * n + i) == i
  {
    var h := k * n + i;
    OneResidue(n, k, i, h / n, h % n);
  }

  lemma OneResidue(n: nat, k: nat, i: nat, l: nat, j: nat)
    requires i < n && j < n && k * n + i == l * n + j
    ensures i == j
  {
    OneLengthMore(n, k, l);
    OneLengthMore(n, l, k);
  }

  lemma {:induction false} OneLengthMore(n: nat, k: nat, l: nat)
    ensures k < l ==> k * n + n <= l * n
    decreases l
  {
    if k < l {
      OneLengthMore(n, k, l - 1);
      assert l * n == (l - 1) * n + n;
    }
  }

  lemma CreateCorrect<K, V>(cfg: Config<K>, pindex: nat)
    requires cfg.Sound() && pindex < |cfg.primes|
    ensures var t := Create<K, V>(cfg, pindex);
            Valid(cfg, t) && multiset(Flat(t.buckets)) == multiset{} && forall q :: Entries(cfg, t, q) == []
  {
    FlatEmpty(Create<K, V>(cfg, pindex).buckets);
  }
}
