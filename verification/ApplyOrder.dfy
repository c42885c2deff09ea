/** The order in which the children of an address space are fetched and applied: sorted by nodeIdCmp,
    in the hope that no child has a smaller id than its parent. */
module ApplyOrder {
  import opened Sequences
  import opened Graphs
  import opened Paths
  import opened Widths

  /** nodeIdCmp; None where one of the names cannot be taken apart. */
  function Compare(a: string, b: string): Option<int> {
    match (Extract(a), Extract(b))
    case (Some(x), Some(y)) =>
      var ns1, ns2, id1, id2 := StrToLL(x.0), StrToLL(y.0), StrToLL(x.1), StrToLL(y.1);
      Some(if ns1 < ns2 then -1 else if ns1 > ns2 then 1 else if id1 < id2 then -1 else if id1 > id2 then 1 else 0)
    case _ => None
  }

  /** First by namespace index, then by the identifier as a signed number. */
  predicate Before(m: NodeId, n: NodeId) {
    m.ns < n.ns || (m.ns == n.ns && Signed(m.id) < Signed(n.id))
  }

  lemma CompareNames(m: NodeId, n: NodeId)
    requires Stored(m) && Stored(n)
    ensures Compare(Name(m), Name(n)) == Some(if Before(m, n) then -1 else if m == n then 0 else 1)
    ensures Compare(Name(m), Name(n)) == Some(-1) <==>
              || m.ns < n.ns
              || (m.ns == n.ns && if m.id < 2147483648 then m.id < n.id < 2147483648
                                  else n.id < 2147483648 || m.id < n.id)
    ensures Name(m) == Name(n) <==> m == n
  {
    hide Extract, Name, StrToLL, Decimal;
    ExtractName(m);
    ExtractName(n);
    ReadDecimal(m.ns);
    ReadDecimal(n.ns);
    ReadDecimal(Signed(m.id));
    ReadDecimal(Signed(n.id));
  }

  /** On the names of nodes the comparison is a total order: it is antisymmetric and transitive, and 0
      only for the same node. */
  lemma TotalOrder(l: NodeId, m: NodeId, n: NodeId)
    requires Stored(l) && Stored(m) && Stored(n)
    ensures Compare(Name(l), Name(m)).Some? && Compare(Name(m), Name(l)) == Some(-Compare(Name(l), Name(m)).value)
    ensures Compare(Name(l), Name(m)) == Some(0) <==> l == m
    ensures Compare(Name(l), Name(m)) == Some(-1) && Compare(Name(m), Name(n)) == Some(-1) ==>
        Compare(Name(l), Name(n)) == Some(-1)
  {
    hide Extract, Name, StrToLL, Decimal, Compare;
    CompareNames(l, m);
    CompareNames(m, l);
    CompareNames(m, n);
    CompareNames(l, n);
  }

  /** The order of the identifiers as they are stored, unsigned, is kept unless it crosses 2^31. */
  lemma AscendingIffSameSign(m: NodeId, n: NodeId)
    requires Stored(m) && Stored(n) && m.ns == n.ns && m.id < n.id
    ensures Before(m, n) <==> !(m.id < TWO31 <= n.id)
  {
  }

  function Names(ns: seq<NodeId>): (r: seq<string>)
    ensures |r| == |ns|
  {
    seq(|ns|, i requires 0 <= i < |ns| => Name(ns[i]))
  }

  /** What a sorting routine promises of its result: no neighbours are out of order. */
  ghost predicate Sorted(names: seq<string>) {
    forall i :: 0 <= i < |names| - 1 ==> InOrder(names, i)
  }

  predicate InOrder(names: seq<string>, i: nat)
    requires i < |names| - 1
  {
    Compare(names[i], names[i + 1]).Some? && Compare(names[i], names[i + 1]).value <= 0
  }

  /** The children of an address space: the znodes of pairwise different nodes. */
  ghost predicate Children(ns: seq<NodeId>) {
    && (forall i :: 0 <= i < |ns| ==> Stored(ns[i]))
    && forall i, j :: 0 <= i < j < |ns| ==> ns[i] != ns[j]
  }

  /** The paths of a parent's children. */
  function Under(parent: string, names: seq<string>): (ps: seq<string>)
    ensures |ps| == |names|
  {
    seq(|names|, i requires 0 <= i < |names| => parent + "/" + names[i])
  }

  predicate Readable(names: seq<string>) {
    forall i :: 0 <= i < |names| ==> Extract(names[i]).Some?
  }

  /** The children as the library's qsort leaves them; what it does to get there is not the source's. */
  method Sort(names: seq<string>) returns (sorted: seq<string>)
    requires Readable(names)
    ensures Sorted(sorted) && multiset(sorted) == multiset(names)
  {
    hide Sorted, Extract, StrToLL;
    sorted := [];
    SortedNothing();
    for i := 0 to |names|
      invariant Sorted(sorted) && Readable(sorted) && multiset(sorted) == multiset(names[..i])
    {
      assert names[..i + 1] == names[..i] + [names[i]];
      var j := 0;
      while j < |sorted| && Compare(names[i], sorted[j]).value > 0
        invariant 0 <= j <= |sorted|
        invariant forall k :: 0 <= k < j ==> Compare(names[i], sorted[k]).value > 0
      {
        j := j + 1;
      }
      InsertSorted(sorted, names[i], j);
      sorted := sorted[..j] + [names[i]] + sorted[j..];
    }
    assert names[..|names|] == names;
  }

  lemma SortedNothing()
    ensures Sorted([])
  {
  }

  lemma InsertSorted(sorted: seq<string>, name: string, j: nat)
    requires Sorted(sorted) && Readable(sorted) && Extract(name).Some? && j <= |sorted|
    requires j > 0 ==> Compare(name, sorted[j - 1]).value > 0
    requires j < |sorted| ==> Compare(name, sorted[j]).Some? && Compare(name, sorted[j]).value <= 0
    ensures var s := sorted[..j] + [name] + sorted[j..];
            Sorted(s) && Readable(s) && multiset(s) == multiset(sorted) + multiset{name}
  {
    hide Compare, Extract, Sorted, Readable;
    var front, rest := sorted[..j], sorted[j..];
    InsertReadable(sorted, name, j);
    SortedParts(sorted, j);
    if j > 0 {
      ReadableAt(sorted, j - 1);
      ComparesBack(name, sorted[j - 1]);
    }
    SortedOne(name);
    SortedJoin(front, [name]);
    SortedJoin(front + [name], rest);
  }

  lemma InsertReadable(sorted: seq<string>, name: string, j: nat)
    requires Readable(sorted) && Extract(name).Some? && j <= |sorted|
    ensures var s := sorted[..j] + [name] + sorted[j..];
            Readable(s) && multiset(s) == multiset(sorted) + multiset{name}
  {
    hide Extract;
    assert sorted == sorted[..j] + sorted[j..];
  }

  lemma ReadableAt(names: seq<string>, i: nat)
    requires Readable(names) && i < |names|
    ensures Extract(names[i]).Some?
  {
  }

  lemma SortedParts(s: seq<string>, j: nat)
    requires Sorted(s) && j <= |s|
    ensures Sorted(s[..j]) && Sorted(s[j..])
  {
    hide Compare;
    forall i | 0 <= i < j - 1
      ensures InOrder(s[..j], i)
    {
      assert InOrder(s, i);
    }
    forall i | 0 <= i < |s| - j - 1
      ensures InOrder(s[j..], i)
    {
      assert InOrder(s, j + i);
    }
  }

  lemma SortedOne(name: string)
    ensures Sorted([name])
  {
  }

  lemma SortedJoin(a: seq<string>, b: seq<string>)
    requires Sorted(a) && Sorted(b)
    requires a != [] && b != [] ==> Compare(a[|a| - 1], b[0]).Some? && Compare(a[|a| - 1], b[0]).value <= 0
    ensures Sorted(a + b)
  {
    hide Compare;
    forall i | 0 <= i < |a + b| - 1
      ensures InOrder(a + b, i)
    {
      if i + 1 < |a| {
        assert InOrder(a, i);
      } else if i >= |a| {
        assert InOrder(b, i - |a|);
      }
    }
  }

  lemma ComparesBack(a: string, b: string)
    requires Extract(a).Some? && Extract(b).Some?
    ensures Compare(a, b).Some? && Compare(b, a) == Some(-Compare(a, b).value)
  {
    hide Extract, StrToLL;
  }

  lemma {:induction false} SortedBefore(ns: seq<NodeId>, i: nat, j: nat)
    requires Children(ns) && Sorted(Names(ns)) && i < j < |ns|
    ensures Before(ns[i], ns[j])
  {
    hide Compare, Name;
    CompareNames(ns[j - 1], ns[j]);
    assert InOrder(Names(ns), j - 1);
    if i < j - 1 {
      SortedBefore(ns, i, j - 1);
    }
  }

  /** After sorting, a node is fetched before another exactly if its namespace index and signed
      identifier are smaller: so every parent of which that is true is applied before its child. */
  lemma ParentsFirst(ns: seq<NodeId>, p: nat, c: nat)
    requires Children(ns) && Sorted(Names(ns)) && p < |ns| && c < |ns|
    ensures p < c <==> Before(ns[p], ns[c])
  {
    if p < c {
      SortedBefore(ns, p, c);
    } else if c < p {
      SortedBefore(ns, c, p);
    }
  }

  /** The order is determined: whatever the sorting routine does with the children it is given, in
      whatever order, there is only one sorted result. */
  lemma {:induction false} OneSortedOrder(a: seq<NodeId>, b: seq<NodeId>)
    requires Children(a) && Children(b) && Sorted(Names(a)) && Sorted(Names(b)) && multiset(a) == multiset(b)
    ensures a == b
  {
    hide Sorted;
    if a == [] {
      assert |multiset(b)| == 0;
    } else {
      assert a[0] in multiset(b) && |multiset(a)| == |multiset(b)|;
      SmallestFirst(a, b);
      assert a == [a[0]] + a[1..] && b == [b[0]] + b[1..];
      assert multiset(a[1..]) == multiset(a) - multiset{a[0]};
      assert multiset(b[1..]) == multiset(b) - multiset{b[0]};
      SortedTail(a);
      SortedTail(b);
      OneSortedOrder(a[1..], b[1..]);
    }
  }

  lemma SmallestFirst(a: seq<NodeId>, b: seq<NodeId>)
    requires Children(a) && Children(b) && Sorted(Names(a)) && Sorted(Names(b)) && multiset(a) == multiset(b)
    requires a != [] && b != []
    ensures a[0] == b[0]
  {
    hide Sorted;
    assert a[0] in multiset(b) && b[0] in multiset(a);
    var i :| 0 <= i < |b| && b[i] == a[0];
    var j :| 0 <= j < |a| && a[j] == b[0];
    if i > 0 {
      SortedBefore(b, 0, i);
    }
    if j > 0 {
      SortedBefore(a, 0, j);
    }
  }

  lemma SortedTail(a: seq<NodeId>)
    requires Children(a) && Sorted(Names(a)) && a != []
    ensures Children(a[1..]) && Sorted(Names(a[1..]))
  {
    hide Compare, Name;
    assert Names(a[1..]) == Names(a)[1..];
    forall i | 0 <= i < |a[1..]| - 1
      ensures InOrder(Names(a[1..]), i)
    {
      assert InOrder(Names(a), i + 1);
    }
  }

  // ---------- Sorting the names of nodes ----------

  lemma {:induction false} OnceEach<T>(s: seq<T>)
    ensures (forall i, j :: 0 <= i < j < |s| ==> s[i] != s[j]) <==> forall x :: multiset(s)[x] <= 1
  {
    if s != [] {
      OnceEach(s[1..]);
      assert s == [s[0]] + s[1..];
      assert forall i :: 0 <= i < |s[1..]| ==> s[1..][i] == s[i + 1];
      if multiset(s)[s[0]] > 1 {
        assert s[0] in multiset(s[1..]);
        var j :| 0 <= j < |s[1..]| && s[1..][j] == s[0];
        assert s[0] == s[j + 1];
      } else if forall x :: multiset(s)[x] <= 1 {
        assert forall x :: multiset(s[1..])[x] <= multiset(s)[x];
        assert s[0] !in multiset(s[1..]);
      }
    }
  }

  /** Any rearrangement of the names of the children of an address space is the names of the same children. */
  lemma NamesRearranged(ns: seq<NodeId>, names: seq<string>) returns (sorted: seq<NodeId>)
    requires Children(ns) && multiset(names) == multiset(Names(ns))
    ensures Children(sorted) && names == Names(sorted) && forall n :: n in sorted <==> n in ns
  {
    hide Name, Children, Names, Named;
    AllNamed(ns, names);
    sorted := seq(|names|, i requires 0 <= i < |names| => NodeOf(ns, names[i]));
    NamesDiffer(ns, names);
    assert names == Names(sorted) by { NamesOf(sorted, names); }
    assert Children(sorted) by { StayChildren(ns, sorted, names); }
    forall n | n in ns
      ensures n in sorted
    {
      NameIsListed(ns, names, n);
      var i :| 0 <= i < |names| && names[i] == Name(n);
      SameName(ns, n, sorted[i]);
      assert sorted[i] in sorted;
    }
  }

  lemma AllNamed(ns: seq<NodeId>, names: seq<string>)
    requires multiset(names) == multiset(Names(ns))
    ensures forall i :: 0 <= i < |names| ==> Named(ns, names[i])
  {
    forall i | 0 <= i < |names|
      ensures Named(ns, names[i])
    {
      NamedIn(ns, names, names[i]);
    }
  }

  lemma NamesDiffer(ns: seq<NodeId>, names: seq<string>)
    requires Children(ns) && multiset(names) == multiset(Names(ns))
    ensures forall i, j :: 0 <= i < j < |names| ==> names[i] != names[j]
  {
    hide Name;
    forall i, j | 0 <= i < j < |ns|
      ensures Names(ns)[i] != Names(ns)[j]
    {
      CompareNames(ns[i], ns[j]);
    }
    OnceEach(Names(ns));
    OnceEach(names);
  }

  lemma NamesOf(ns: seq<NodeId>, names: seq<string>)
    requires |names| == |ns| && forall i :: 0 <= i < |ns| ==> names[i] == Name(ns[i])
    ensures names == Names(ns)
  {
    hide Name;
  }

  lemma StayChildren(ns: seq<NodeId>, sorted: seq<NodeId>, names: seq<string>)
    requires Children(ns) && names == Names(sorted) && (forall i :: 0 <= i < |sorted| ==> sorted[i] in ns)
    requires forall i, j :: 0 <= i < j < |names| ==> names[i] != names[j]
    ensures Children(sorted)
  {
    hide Name;
    forall i, j | 0 <= i < j < |sorted|
      ensures sorted[i] != sorted[j]
    {
      assert names[i] == Name(sorted[i]) && names[j] == Name(sorted[j]);
    }
  }

  lemma SameName(ns: seq<NodeId>, m: NodeId, n: NodeId)
    requires Children(ns) && m in ns && n in ns && Name(m) == Name(n)
    ensures m == n
  {
    hide Name;
    CompareNames(m, n);
  }

  lemma NameIsListed(ns: seq<NodeId>, names: seq<string>, n: NodeId)
    requires multiset(names) == multiset(Names(ns)) && n in ns
    ensures Name(n) in names
  {
    hide Name;
    NamedIn(ns, names, Name(n));
  }

  lemma NamedIn(ns: seq<NodeId>, names: seq<string>, name: string)
    requires multiset(names) == multiset(Names(ns))
    ensures name in names <==> Named(ns, name)
  {
    hide Name;
    assert name in names <==> name in multiset(Names(ns));
    if name in Names(ns) {
      var j :| 0 <= j < |ns| && Names(ns)[j] == name;
      assert ns[j] in ns;
    }
    if n :| n in ns && Name(n) == name {
      var j :| 0 <= j < |ns| && ns[j] == n;
      assert Names(ns)[j] == name;
    }
  }

  ghost predicate Named(ns: seq<NodeId>, name: string) {
    exists n :: n in ns && Name(n) == name
  }

  /** The child with this name. */
  ghost function NodeOf(ns: seq<NodeId>, name: string): (n: NodeId)
    requires Named(ns, name)
    ensures n in ns && Name(n) == name
  {
    var n :| n in ns && Name(n) == name;
    n
  }
}
