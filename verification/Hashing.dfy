/** The functions that the server gives its hash table: Bernstein's hash of the znode path, mixed once
    more by the table, and an equality that looks at the first eight characters only. */
module Hashing {
  import opened Table
  import opened Growth
  import opened Protocol
  import opened Versions
  import opened Coherence
  import opened Losses
  import opened ReadingBack
  import opened Races
  import opened Mixing
  import opened Widths
  import Graphs
  import Paths

  /** The table lengths, in order. */
  const PRIMES: seq<nat> := [
    53, 97, 193, 389, 769, 1543, 3079, 6151, 12289, 24593, 49157, 98317, 196613, 393241, 786433, 1572869,
    3145739, 6291469, 12582917, 25165843, 50331653, 100663319, 201326611, 402653189, 805306457, 1610612741
  ]

  /** The value of a character as a signed byte. */
  function SignedByte(c: char): int {
    var b := c as int % 256;
    if b < 128 then b else b - 256
  }

  /** zkUA_hash from a given start: hash * 33 + c for every character, on 32 bits. */
  function Djb2(s: string, start: nat): (h: nat)
    requires start < TWO32
    ensures h < TWO32
  {
    if s == "" then start else Djb2(s[1..], (33 * start + SignedByte(s[0])) % TWO32)
  }

  const START := 5381

  method ZkHash(s: string) returns (hash: nat)
    ensures hash == Djb2(s, START) == Djb2(s, 5381)
  {
    hash := START;
    assert s[0..] == s;
    for i := 0 to |s|
      invariant hash < TWO32 && Djb2(s[i..], hash) == Djb2(s, START)
    {
      assert s[i..][1..] == s[i + 1..];
      hash := (33 * hash + SignedByte(s[i])) % TWO32;
    }
  }

  /** zkUA_equalKeys: the keys agree in their first eight characters, or in all if there are fewer. */
  predicate EqualKeys(a: string, b: string) {
    (if |a| < 8 then a else a[..8]) == (if |b| < 8 then b else b[..8])
  }

  function PathHash(p: Path): nat {
    Number(Mix(Word(Djb2(p, START))))
  }

  /** The table that zkUA_initializeHashmap creates, for any load limits. */
  function PathConfig(limitOf: nat -> nat): Config<Path> {
    Config(PathHash, EqualKeys, limitOf, PRIMES)
  }

  /** The primes are a sound choice of lengths, and one exceeds every size that may be asked for. */
  lemma PrimesSuffice(limitOf: nat -> nat, minsize: nat)
    requires minsize <= 0x4000_0000
    ensures PathConfig(limitOf).Sound() && exists p :: 0 <= p < |PRIMES| && PRIMES[p] > minsize
  {
    assert PRIMES[25] > minsize;
  }

  /** The znodes of an address space. */
  predicate UnderServers(p: Path) {
    "/Servers" <= p
  }

  /** Between znode paths the equality never tells keys apart: an entry matches a path exactly if the
      hashes agree. */
  lemma MatchingIsHashing(limitOf: nat -> nat, p: Path, q: Path, v: nat)
    requires UnderServers(p) && UnderServers(q)
    ensures EqualKeys(p, q)
    ensures PathConfig(limitOf).Matches(q, Cell(PathHash(p), p, v)) <==> PathHash(p) == PathHash(q)
  {
  }

  /** So a set of paths is free of collisions exactly if no two of them have the same hash. */
  lemma CollisionFreeIffHashInjective(limitOf: nat -> nat, live: set<Path>)
    requires forall p :: p in live ==> UnderServers(p)
    ensures CollisionFree(PathConfig(limitOf), live) <==> HashInjective(live)
  {
    hide PathHash, PathConfig, EqualKeys, UnderServers;
    PathConfigFields(limitOf);
    forall p, q | p in live && q in live
      ensures EqualKeys(p, q)
    {
      MatchingIsHashing(limitOf, p, q, 0);
    }
  }

  // ---------- Keys that are the same ----------

  /** Two paths have the same hash in the table exactly if the mixing identifies their hashes, from 5381 on. */
  lemma SameHashIff(p: Path, q: Path)
    ensures PathHash(p) == PathHash(q) <==>
            Alike(Mix3(Word(Djb2(p, 5381))), Mix3(Word(Djb2(q, 5381))))
  {
    hide Mix, Mix3, Alike, Djb2, Word, Number;
    MixIdentifies(Word(Djb2(p, 5381)), Word(Djb2(q, 5381)));
    SameNumber(Mix(Word(Djb2(p, 5381))), Mix(Word(Djb2(q, 5381))));
  }

  /** The hash of one character, taken as a signed byte, and the key of "a". */
  lemma HashOfOne(c: char)
    ensures c as int < 128 ==> Djb2([c], 5381) == 177573 + c as int
    ensures 128 <= c as int < 256 ==> Djb2([c], 5381) == 177573 + c as int - 256
  {
    assert [c][1..] == "";
  }

  lemma HashOfA()
    ensures Djb2("a", 5381) == 177670 && PathHash("a") == 0xe94b_e31e
  {
    hide Mix, Word, Number;
    assert "a"[1..] == "";
    MixedHashes();
    ANumber();
  }

  lemma ANumber()
    ensures Word(177670) == 177670 && Number(0xe94b_e31e) == 0xe94b_e31e
  {
  }

  // ---------- A collision ----------

  lemma {:induction false} Djb2Concat(s: string, t: string, start: nat)
    requires start < TWO32
    ensures Djb2(s + t, start) == Djb2(t, Djb2(s, start))
  {
    if s == "" {
      assert s + t == t;
    } else {
      assert (s + t)[1..] == s[1..] + t;
      Djb2Concat(s[1..], t, (33 * start + SignedByte(s[0])) % TWO32);
    }
  }

  lemma ModShift(x: int, k: int)
    ensures (x - TWO32 * k) % TWO32 == x % TWO32
  {
  }

  /** One step of the hash, on numbers that are not reduced. */
  lemma Horner(s: string, start: nat, k: nat, h: int)
    requires start < TWO32 && k < |s| && '0' <= s[k] <= '9' && Djb2(s[..k], start) == h % TWO32
    ensures Djb2(s[..k + 1], start) == (33 * h + s[k] as int) % TWO32
  {
    assert s[..k + 1] == s[..k] + [s[k]];
    Djb2Concat(s[..k], [s[k]], start);
    assert [s[k]][1..] == "";
    ModShift(33 * h + s[k] as int, 33 * (h / TWO32));
  }

  /** The hash of nine digits, as a polynomial. */
  lemma HashOf9(s: string, start: nat)
    requires start < TWO32 && |s| == 9 && forall i :: 0 <= i < 9 ==> '0' <= s[i] <= '9'
    ensures Djb2(s, start) ==
            (46411484401953 * start + 1406408618241 * s[0] as int + 42618442977 * s[1] as int + 1291467969 * s[2] as int
             + 39135393 * s[3] as int + 1185921 * s[4] as int + 35937 * s[5] as int + 1089 * s[6] as int
             + 33 * s[7] as int + s[8] as int) % TWO32
  {
    hide Djb2;
    var h := start;
    Djb2Nothing(s, start);
    Horner(s, start, 0, h);
    h := 33 * h + s[0] as int;
    Horner(s, start, 1, h);
    h := 33 * h + s[1] as int;
    Horner(s, start, 2, h);
    h := 33 * h + s[2] as int;
    Horner(s, start, 3, h);
    h := 33 * h + s[3] as int;
    Horner(s, start, 4, h);
    h := 33 * h + s[4] as int;
    Horner(s, start, 5, h);
    h := 33 * h + s[5] as int;
    Horner(s, start, 6, h);
    h := 33 * h + s[6] as int;
    Horner(s, start, 7, h);
    h := 33 * h + s[7] as int;
    Horner(s, start, 8, h);
    assert s[..9] == s;
  }

  lemma Djb2Nothing(s: string, start: nat)
    requires start < TWO32
    ensures Djb2(s[..0], start) == start % TWO32
  {
  }

  const ID1 := 100060906
  const ID2 := 141117421

  lemma Digits1()
    ensures Paths.Decimal(ID1) == "100060906"
  {
    assert Paths.Digits(1) == "1" && Paths.Digits(10) == "10" && Paths.Digits(100) == "100"
           && Paths.Digits(1000) == "1000";
    assert Paths.Digits(10006) == "10006" && Paths.Digits(100060) == "100060" && Paths.Digits(1000609) == "1000609";
    assert Paths.Digits(10006090) == "10006090";
  }

  lemma Digits2()
    ensures Paths.Decimal(ID2) == "141117421"
  {
    assert Paths.Digits(14) == "14" && Paths.Digits(141) == "141" && Paths.Digits(1411) == "1411"
           && Paths.Digits(14111) == "14111";
    assert Paths.Digits(141117) == "141117" && Paths.Digits(1411174) == "1411174"
           && Paths.Digits(14111742) == "14111742";
  }

  lemma DigitsCollide(start: nat)
    requires start < TWO32
    ensures Djb2("100060906", start) == Djb2("141117421", start)
  {
    hide Djb2;
    HashOf9("100060906", start);
    HashOf9("141117421", start);
    ModShift(46411484401953 * start + 71195441038342, 40);
  }

  /** In every namespace of every address space there are two nodes whose paths differ and have the same
      hash: that the live paths do not collide cannot be taken for granted. */
  lemma PathsCollide(prefix: string, ns: nat)
    requires ns < TWO16
    ensures var p, q := Paths.Path(prefix, Graphs.NodeId(ns, ID1)), Paths.Path(prefix, Graphs.NodeId(ns, ID2));
            p != q && PathHash(p) == PathHash(q)
  {
    hide Djb2, Mix, Paths.Decimal, Paths.Path;
    Digits1();
    Digits2();
    Paths.PathsDiffer(prefix, Graphs.NodeId(ns, ID1), Graphs.NodeId(ns, ID2));
    PathEnds(prefix, ns, ID1);
    PathEnds(prefix, ns, ID2);
    Djb2Concat(PathStart(prefix, ns), "100060906", START);
    Djb2Concat(PathStart(prefix, ns), "141117421", START);
    DigitsCollide(Djb2(PathStart(prefix, ns), START));
  }

  function PathStart(prefix: string, ns: nat): string {
    prefix + "/" + "ns=" + Paths.Decimal(ns) + ";i="
  }

  lemma PathEnds(prefix: string, ns: nat, id: nat)
    requires id < TWO31
    ensures Paths.Path(prefix, Graphs.NodeId(ns, id)) == PathStart(prefix, ns) + Paths.Decimal(id)
  {
  }

  /** The first eight characters decide, and all of them do. */
  lemma EightCharacters(a: string, b: string)
    requires |a| >= 8 && |b| >= 8
    ensures EqualKeys(a, b) <==> forall i :: 0 <= i < 8 ==> a[i] == b[i]
  {
    if EqualKeys(a, b) {
      forall i | 0 <= i < 8
        ensures a[i] == b[i]
      {
        assert a[..8][i] == b[..8][i];
      }
    }
  }

  /** A load limit of about 65 per cent grows with the primes. */
  lemma LoadLimitsIncrease(limitOf: nat -> nat)
    requires forall i :: 0 <= i < |PRIMES| ==> 64 * PRIMES[i] <= 100 * limitOf(PRIMES[i]) <= 66 * PRIMES[i] + 100
    ensures LimitsIncrease(PathConfig(limitOf))
  {
    forall i | 0 <= i < |PRIMES| - 2
      ensures limitOf(PRIMES[i]) < limitOf(PRIMES[i + 1])
    {
      assert 66 * PRIMES[i] + 100 < 64 * PRIMES[i + 1];
    }
  }

  // ---------- What a collision does ----------

  lemma PathConfigFields(limitOf: nat -> nat)
    ensures PathConfig(limitOf).hash == PathHash && PathConfig(limitOf).eq == EqualKeys
    ensures PathConfig(limitOf).primes == PRIMES && PathConfig(limitOf).Sound()
  {
  }

  /** For the functions that the servers pass, whatever the load limits: exactly if no two live paths have
      the same hash, a skipped fetch never leaves a stale copy, in any run in which no step loses coherence,
      or just in any in which no create is raced, nothing is deleted and no add is refused; and exactly then
      no version ever runs ahead, in any run whose recorded gets leave versions of their paths. */
  lemma CoherentIffHashInjective(limitOf: nat -> nat, live: set<Path>, pindex: nat)
    requires pindex < |PRIMES| && forall p :: p in live ==> UnderServers(p)
    ensures var cfg := PathConfig(limitOf);
            HashInjective(live) <==>
              forall n: nat, es, sys :: Run(cfg, live, Lossless(cfg), Initial(cfg, n, pindex), es, sys) ==>
                  Coherent(cfg, live, sys)
    ensures var cfg := PathConfig(limitOf);
            HashInjective(live) <==>
              forall n: nat, es, sys :: Run(cfg, live, Smooth, Initial(cfg, n, pindex), es, sys) ==>
                  Coherent(cfg, live, sys)
    ensures var cfg := PathConfig(limitOf);
            HashInjective(live) <==>
              forall n: nat, es, sys :: Run(cfg, live, ReadsLogged, Initial(cfg, n, pindex), es, sys) ==>
                  NoneAhead(cfg, live, sys)
  {
    hide PathConfig, PathHash, EqualKeys, UnderServers, Run, Coherent, NoneAhead, Initial, Lossless;
    var cfg := PathConfig(limitOf);
    PathConfigFields(limitOf);
    CollisionFreeIffHashInjective(limitOf, live);
    if HashInjective(live) {
      forall n: nat, es, sys | Run(cfg, live, Lossless(cfg), Initial(cfg, n, pindex), es, sys)
        ensures Coherent(cfg, live, sys)
      {
        LosslessIsCoherent(cfg, live, n, pindex, es, sys);
      }
      forall n: nat, es, sys | Run(cfg, live, Smooth, Initial(cfg, n, pindex), es, sys)
        ensures Coherent(cfg, live, sys)
      {
        UnracedIsCoherent(cfg, live, n, pindex, es, sys);
      }
      forall n: nat, es, sys | Run(cfg, live, ReadsLogged, Initial(cfg, n, pindex), es, sys)
        ensures NoneAhead(cfg, live, sys)
      {
        VersionsNeverRunAhead(cfg, live, n, pindex, es, sys);
      }
    } else {
      var p, q :| p in live && q in live && PathHash(p) == PathHash(q) && p != q;
      MatchingIsHashing(limitOf, p, p, 0);
      MatchingIsHashing(limitOf, p, q, 0);
      MatchingIsHashing(limitOf, q, p, 0);
      var es, sys := CollisionBreaks(cfg, live, pindex, p, q);
    }
  }

  predicate HashInjective(live: set<Path>) {
    forall p, q :: p in live && q in live && PathHash(p) == PathHash(q) ==> p == q
  }

  /** In an address space with both of the colliding nodes neither holds. */
  lemma AddressSpaceCollides(limitOf: nat -> nat, prefix: string, ns: nat, live: set<Path>)
    requires ns < TWO16 && Paths.Path(prefix, Graphs.NodeId(ns, ID1)) in live
             && Paths.Path(prefix, Graphs.NodeId(ns, ID2)) in live
    ensures !HashInjective(live)
  {
    hide PathHash, Paths.Path;
    PathsCollide(prefix, ns);
  }
}
