/** What the chained hash table holds, as a value, and what each operation does to it. */
module Table {
  import opened Sequences

  /** One entry: the stored hash, the key and the value. */
  datatype Cell<+K, +V> = Cell(h: nat, k: K, v: V)

  type Buckets<K, V> = seq<seq<Cell<K, V>>>

  /** The functions a table is created with. hash stands for the client's hash function followed
      by the table's own mixing step; limitOf gives the load limit of a table length; primes lists
      the table lengths to use, in order. */
  datatype Config<!K> = Config(hash: K -> nat, eq: (K, K) -> bool, limitOf: nat -> nat, primes: seq<nat>) {
    predicate Sound() {
      primes != [] && forall p :: 0 <= p < |primes| ==> primes[p] > 0
    }

    /** The test that search, remove and the iterator apply to an entry. */
    predicate Matches<V>(q: K, c: Cell<K, V>) {
      hash(q) == c.h && eq(q, c.k)
    }

    /** Matches as a filter. */
    function Matching<V>(q: K): Cell<K, V> -> bool {
      c => Matches(q, c)
    }
  }

  /** The fields of the table record, with the chains as sequences. */
  datatype State<K, V> = State(buckets: Buckets<K, V>, primeindex: nat, loadlimit: nat, entrycount: int)

  /** indexFor: the bucket of a hash in a table of length n. */
  function IndexFor(n: nat, h: nat): (i: nat)
    requires n > 0
    ensures i < n
  {
    h % n
  }

  function InBucket<K, V>(n: nat, i: nat): Cell<K, V> -> bool
    requires n > 0
  {
    (c: Cell<K, V>) => IndexFor(n, c.h) == i
  }

  /** Every entry sits in the bucket its stored hash selects. */
  ghost predicate Placed<K, V>(b: Buckets<K, V>) {
    |b| > 0 && forall i, j :: 0 <= i < |b| && 0 <= j < |b[i]| ==> IndexFor(|b|, b[i][j].h) == i
  }

  /** Every stored hash is the hash of the stored key. */
  ghost predicate Hashed<K, V>(cfg: Config<K>, b: Buckets<K, V>) {
    forall i, j :: 0 <= i < |b| && 0 <= j < |b[i]| ==> b[i][j].h == cfg.hash(b[i][j].k)
  }

  /** All entries in bucket order, and in chain order inside a bucket. */
  function Flat<K, V>(b: Buckets<K, V>): seq<Cell<K, V>> {
    if b == [] then [] else b[0] + Flat(b[1..])
  }

  function Empty<K, V>(n: nat): (b: Buckets<K, V>)
    ensures |b| == n && forall i :: 0 <= i < n ==> b[i] == []
  {
    seq(n, _ => [])
  }

  /** Link one entry at the head of its chain. */
  function Push<K, V>(b: Buckets<K, V>, c: Cell<K, V>): (r: Buckets<K, V>)
    requires |b| > 0
    ensures |r| == |b|
  {
    b[IndexFor(|b|, c.h) := [c] + b[IndexFor(|b|, c.h)]]
  }

  /** Link the entries one after the other. */
  function PushAll<K, V>(b: Buckets<K, V>, cs: seq<Cell<K, V>>): (r: Buckets<K, V>)
    requires |b| > 0
    ensures |r| == |b|
    decreases |cs|
  {
    if cs == [] then b else PushAll(Push(b, cs[0]), cs[1..])
  }

  /** Transfer every entry to n fresh chains. */
  function Rehash<K, V>(b: Buckets<K, V>, n: nat): (r: Buckets<K, V>)
    requires n > 0
    ensures |r| == n
  {
    PushAll(Empty(n), Flat(b))
  }

  /** The position of the first matching entry of a chain, or the chain's length. */
  function FirstMatch<K, V>(cfg: Config<K>, q: K, chain: seq<Cell<K, V>>): (j: nat)
    ensures j <= |chain|
    ensures forall i :: 0 <= i < j ==> !cfg.Matches(q, chain[i])
    ensures j < |chain| ==> cfg.Matches(q, chain[j])
  {
    if chain == [] then 0
    else if cfg.Matches(q, chain[0]) then 0
    else
      var r := FirstMatch(cfg, q, chain[1..]);
      assert forall i :: 1 <= i < |chain| ==> chain[i] == chain[1..][i - 1];
      r + 1
  }

  /** Everything but the entry count. */
  ghost predicate Shaped<K, V>(cfg: Config<K>, t: State<K, V>) {
    && cfg.Sound()
    && t.primeindex < |cfg.primes|
    && |t.buckets| == cfg.primes[t.primeindex]
    && t.loadlimit == cfg.limitOf(|t.buckets|)
    && Placed(t.buckets)
    && Hashed(cfg, t.buckets)
  }

  ghost predicate Valid<K, V>(cfg: Config<K>, t: State<K, V>) {
    Shaped(cfg, t) && t.entrycount == |Flat(t.buckets)|
  }

  // ---------- Operations ----------

  function Create<K, V>(cfg: Config<K>, pindex: nat): State<K, V>
    requires pindex < |cfg.primes|
  {
    State(Empty(cfg.primes[pindex]), pindex, cfg.limitOf(cfg.primes[pindex]), 0)
  }

  /** Move to the next prime, unless the largest is in use or memory for the new table is refused. */
  function Expand<K, V>(cfg: Config<K>, t: State<K, V>, tableMemory: bool): State<K, V>
    requires cfg.Sound() && t.primeindex < |cfg.primes|
  {
    if t.primeindex == |cfg.primes| - 1 || !tableMemory then t
    else
      var n := cfg.primes[t.primeindex + 1];
      State(Rehash(t.buckets, n), t.primeindex + 1, cfg.limitOf(n), t.entrycount)
  }

  /** Whether an insertion into t moves the entries to a larger table first. */
  predicate Expands<K, V>(cfg: Config<K>, t: State<K, V>, tableMemory: bool) {
    t.entrycount + 1 > t.loadlimit && t.primeindex < |cfg.primes| - 1 && tableMemory
  }

  /** Insert, where memory for a larger table or for the entry itself may be refused. */
  function Insert<K, V>(cfg: Config<K>, t: State<K, V>, k: K, v: V, tableMemory: bool, entryMemory: bool): State<K, V>
    requires cfg.Sound() && t.primeindex < |cfg.primes| && |t.buckets| > 0
  {
    var t' := if t.entrycount + 1 > t.loadlimit then Expand(cfg, t, tableMemory) else t;
    if entryMemory
    then t'.(buckets := Push(t'.buckets, Cell(cfg.hash(k), k, v)), entrycount := t.entrycount + 1)
    else t'
  }

  /** The chain that q's hash selects. */
  function Chain<K, V>(cfg: Config<K>, t: State<K, V>, q: K): seq<Cell<K, V>>
    requires |t.buckets| > 0
  {
    t.buckets[IndexFor(|t.buckets|, cfg.hash(q))]
  }

  function Search<K, V>(cfg: Config<K>, t: State<K, V>, q: K): Option<V>
    requires |t.buckets| > 0
  {
    var chain := Chain(cfg, t, q);
    var j := FirstMatch(cfg, q, chain);
    if j < |chain| then Some(chain[j].v) else None
  }

  /** Unlink position j of chain i. */
  function Unlink<K, V>(t: State<K, V>, i: nat, j: nat): State<K, V>
    requires i < |t.buckets| && j < |t.buckets[i]|
  {
    var chain := t.buckets[i];
    t.(buckets := t.buckets[i := chain[..j] + chain[j + 1..]], entrycount := t.entrycount - 1)
  }

  function Remove<K, V>(cfg: Config<K>, t: State<K, V>, q: K): State<K, V>
    requires |t.buckets| > 0
  {
    var chain := Chain(cfg, t, q);
    var j := FirstMatch(cfg, q, chain);
    if j < |chain| then Unlink(t, IndexFor(|t.buckets|, cfg.hash(q)), j) else t
  }
}
