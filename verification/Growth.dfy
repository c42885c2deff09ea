/** How the table grows: an expansion moves it to the next prime, so a table expands at most as often as there
    are primes ahead, and while memory is granted no insertion leaves it over its limit before the last. */
module Growth {
  import opened Table
  import opened TableLemmas

  /** An expansion that is not refused moves the table to the next prime; one that is refused changes nothing. */
  lemma ExpandGrows<K, V>(cfg: Config<K>, t: State<K, V>, tableMemory: bool)
    requires cfg.Sound() && t.primeindex < |cfg.primes|
    ensures var t' := Expand(cfg, t, tableMemory);
            if t.primeindex + 1 < |cfg.primes| && tableMemory
            then
              && t'.primeindex == t.primeindex + 1 && |t'.buckets| == cfg.primes[t.primeindex + 1]
              && t'.loadlimit == cfg.limitOf(cfg.primes[t.primeindex + 1]) && t'.entrycount == t.entrycount
            else t' == t
  {
    hide Rehash;
  }

  /** An insertion moves the table to the next prime exactly if the new entry would be one more than the load
      limit, there is a next prime and memory is granted; it counts the entry exactly if it is linked. */
  lemma InsertGrows<K, V>(cfg: Config<K>, t: State<K, V>, k: K, v: V, tableMemory: bool, entryMemory: bool)
    requires Valid(cfg, t)
    ensures var t' := Insert(cfg, t, k, v, tableMemory, entryMemory);
            var moves := t.entrycount >= t.loadlimit && t.primeindex + 1 < |cfg.primes| && tableMemory;
            && t'.primeindex == t.primeindex + (if moves then 1 else 0)
            && |t'.buckets| == cfg.primes[t'.primeindex] && t'.loadlimit == cfg.limitOf(cfg.primes[t'.primeindex])
            && t'.entrycount == t.entrycount + if entryMemory then 1 else 0
  {
    hide Rehash, Placed, Hashed, Flat;
  }

  // ---------- Over whole runs ----------

  /** How many of the operations move the entries to a larger table, which reverses their order. */
  ghost function Rehashes<K(!new), V(!new)>(cfg: Config<K>, t: State<K, V>, ops: seq<Op<K, V>>): nat
    requires Valid(cfg, t)
    decreases |ops|
  {
    if ops == [] then 0
    else
      ExecRefines(cfg, t, ops[0]);
      (if ops[0].InsertOp? && Expands(cfg, t, ops[0].tableMemory) then 1 else 0) +
      Rehashes(cfg, Exec(cfg, t, ops[0]).0, ops[1..])
  }

  lemma ExecGrows<K(!new), V(!new)>(cfg: Config<K>, t: State<K, V>, op: Op<K, V>)
    requires Valid(cfg, t)
    ensures var t' := Exec(cfg, t, op).0;
            && Valid(cfg, t') && t.primeindex < |cfg.primes| && t'.primeindex < |cfg.primes|
            && t'.primeindex == t.primeindex + if op.InsertOp? && Expands(cfg, t, op.tableMemory) then 1 else 0
  {
    hide Placed, Hashed, Flat, Rehash;
    ExecRefines(cfg, t, op);
  }

  /** In every sequence of operations the table moves once for each prime it passes: from the creation with
      the prime at pindex on, at most |primes| - 1 - pindex times. */
  lemma {:induction false} OneRehashEachPrime<K(!new), V(!new)>(cfg: Config<K>, t: State<K, V>, ops: seq<Op<K, V>>)
    requires Valid(cfg, t)
    ensures var t' := ExecAll(cfg, t, ops).0;
            && t'.primeindex == t.primeindex + Rehashes(cfg, t, ops) < |cfg.primes|
            && |t'.buckets| == cfg.primes[t'.primeindex]
    decreases |ops|
  {
    if ops != [] {
      hide Valid;
      ExecGrows(cfg, t, ops[0]);
      OneRehashEachPrime(cfg, Exec(cfg, t, ops[0]).0, ops[1..]);
    }
  }

  lemma RehashesFromCreation<K(!new), V(!new)>(cfg: Config<K>, pindex: nat, ops: seq<Op<K, V>>)
    requires cfg.Sound() && pindex < |cfg.primes|
    ensures Valid(cfg, Create<K, V>(cfg, pindex))
    ensures Rehashes(cfg, Create<K, V>(cfg, pindex), ops) <= |cfg.primes| - 1 - pindex
  {
    CreateCorrect<K, V>(cfg, pindex);
    OneRehashEachPrime(cfg, Create<K, V>(cfg, pindex), ops);
  }

  // ---------- Within the load limit ----------

  /** Each prime but the last has a larger load limit than the one before it. */
  predicate LimitsIncrease<K>(cfg: Config<K>) {
    forall i :: 0 <= i < |cfg.primes| - 2 ==> cfg.limitOf(cfg.primes[i]) < cfg.limitOf(cfg.primes[i + 1])
  }

  predicate WithinLimit<K, V>(cfg: Config<K>, t: State<K, V>) {
    t.entrycount <= t.loadlimit || t.primeindex == |cfg.primes| - 1
  }

  predicate MemoryGranted<K, V>(ops: seq<Op<K, V>>) {
    forall i :: 0 <= i < |ops| && ops[i].InsertOp? ==> ops[i].tableMemory
  }

  lemma RemoveShrinks<K, V>(cfg: Config<K>, t: State<K, V>, q: K)
    requires Valid(cfg, t)
    ensures var t' := Remove(cfg, t, q);
            t'.entrycount <= t.entrycount && t'.loadlimit == t.loadlimit && t'.primeindex == t.primeindex
  {
  }

  /** While memory for larger tables is granted, the table stays within its load limit, over every sequence of
      operations, until it has the last prime; for limits that grow with the primes. */
  lemma {:induction false} StaysWithinLimit<K(!new), V(!new)>(cfg: Config<K>, t: State<K, V>, ops: seq<Op<K, V>>)
    requires Valid(cfg, t) && LimitsIncrease(cfg) && MemoryGranted(ops) && WithinLimit(cfg, t)
    ensures WithinLimit(cfg, ExecAll(cfg, t, ops).0)
    decreases |ops|
  {
    if ops != [] {
      ExecRefines(cfg, t, ops[0]);
      assert WithinLimit(cfg, Exec(cfg, t, ops[0]).0) by {
        match ops[0]
        case InsertOp(k, v, tm, em) => InsertWithinLimit(cfg, t, k, v, em);
        case SearchOp(_) =>
        case RemoveOp(q) => RemoveShrinks(cfg, t, q);
      }
      assert forall i :: 0 <= i < |ops[1..]| ==> ops[1..][i] == ops[i + 1];
      hide Valid;
      StaysWithinLimit(cfg, Exec(cfg, t, ops[0]).0, ops[1..]);
    }
  }

  lemma InsertWithinLimit<K, V>(cfg: Config<K>, t: State<K, V>, k: K, v: V, entryMemory: bool)
    requires Valid(cfg, t) && LimitsIncrease(cfg) && WithinLimit(cfg, t)
    ensures WithinLimit(cfg, Insert(cfg, t, k, v, true, entryMemory))
  {
    InsertGrows(cfg, t, k, v, true, entryMemory);
    hide Insert;
    if t.primeindex + 2 < |cfg.primes| {
      assert cfg.limitOf(cfg.primes[t.primeindex]) < cfg.limitOf(cfg.primes[t.primeindex + 1]);
    }
  }

  function Repeat<K, V>(k: K, v: V, n: nat): (ops: seq<Op<K, V>>)
    ensures |ops| == n && MemoryGranted(ops)
  {
    seq(n, _ => InsertOp(k, v, true, true))
  }

  /** Insertions up to the load limit do not move the table. */
  lemma {:induction false} FillUp<K(!new), V(!new)>(cfg: Config<K>, t: State<K, V>, k: K, v: V, n: nat)
    requires Valid(cfg, t) && t.entrycount + n <= t.loadlimit
    ensures var t' := ExecAll(cfg, t, Repeat(k, v, n)).0;
            Valid(cfg, t') && t'.primeindex == t.primeindex && t'.entrycount == t.entrycount + n
    decreases n
  {
    if n > 0 {
      assert Repeat<K, V>(k, v, n)[1..] == Repeat(k, v, n - 1);
      ExecRefines(cfg, t, InsertOp(k, v, true, true));
      InsertGrows(cfg, t, k, v, true, true);
      hide Valid, Insert;
      FillUp(cfg, Insert(cfg, t, k, v, true, true), k, v, n - 1);
    }
  }

  lemma {:induction false} ExecConcat<K(!new), V(!new)>(cfg: Config<K>, t: State<K, V>, ops: seq<Op<K, V>>,
                                                        op: Op<K, V>)
    requires Valid(cfg, t)
    ensures var t' := ExecAll(cfg, t, ops).0;
            Valid(cfg, t') && ExecAll(cfg, t, ops + [op]).0 == Exec(cfg, t', op).0
    decreases |ops|
  {
    if ops == [] {
      hide Valid;
      assert ops + [op] == [op];
      ExecRefines(cfg, t, op);
      assert ExecAll(cfg, t, [op]).0 == ExecAll(cfg, Exec(cfg, t, op).0, [op][1..]).0;
    } else {
      ExecRefines(cfg, t, ops[0]);
      assert (ops + [op])[1..] == ops[1..] + [op];
      var t' := Exec(cfg, t, ops[0]).0;
      hide Valid;
      ExecConcat(cfg, t', ops[1..], op);
    }
  }

  /** Otherwise filling a table and inserting once more leaves it over its limit with a prime still ahead. */
  lemma OverTheLimit<K(!new), V(!new)>(cfg: Config<K>, k: K, v: V, i: nat) returns (ops: seq<Op<K, V>>)
    requires cfg.Sound() && i + 2 < |cfg.primes| && cfg.limitOf(cfg.primes[i]) >= cfg.limitOf(cfg.primes[i + 1])
    ensures MemoryGranted(ops) && Valid(cfg, Create<K, V>(cfg, i))
    ensures !WithinLimit(cfg, ExecAll(cfg, Create<K, V>(cfg, i), ops).0)
  {
    CreateCorrect<K, V>(cfg, i);
    var t := Create<K, V>(cfg, i);
    var full := Repeat(k, v, cfg.limitOf(cfg.primes[i]));
    ops := full + [InsertOp(k, v, true, true)];
    FillUp(cfg, t, k, v, cfg.limitOf(cfg.primes[i]));
    ExecConcat(cfg, t, full, InsertOp(k, v, true, true));
    InsertGrows(cfg, ExecAll(cfg, t, full).0, k, v, true, true);
    hide Insert;
  }

  /** So exactly if the limits grow with the primes does every table, whatever is done to it from its creation
      on, stay within its limit while memory for larger tables is granted and a prime is ahead. */
  lemma WithinLimitIff<K(!new), V(!new)>(cfg: Config<K>, k: K, v: V)
    requires cfg.Sound()
    ensures LimitsIncrease(cfg) <==>
            forall i: nat, ops: seq<Op<K, V>> :: i < |cfg.primes| && MemoryGranted(ops) ==>
              CreatedWithin(cfg, i, ops)
  {
    if LimitsIncrease(cfg) {
      forall i: nat, ops: seq<Op<K, V>> | i < |cfg.primes| && MemoryGranted(ops)
        ensures CreatedWithin(cfg, i, ops)
      {
        CreateCorrect<K, V>(cfg, i);
        StaysWithinLimit(cfg, Create<K, V>(cfg, i), ops);
      }
    } else {
      var i :| 0 <= i < |cfg.primes| - 2 && cfg.limitOf(cfg.primes[i]) >= cfg.limitOf(cfg.primes[i + 1]);
      var ops := OverTheLimit(cfg, k, v, i);
      assert !CreatedWithin(cfg, i, ops);
    }
  }

  ghost predicate CreatedWithin<K(!new), V(!new)>(cfg: Config<K>, i: nat, ops: seq<Op<K, V>>)
    requires i < |cfg.primes|
  {
    var t := Create<K, V>(cfg, i);
    Valid(cfg, t) && WithinLimit(cfg, ExecAll(cfg, t, ops).0)
  }
}
