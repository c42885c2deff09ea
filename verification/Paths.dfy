/** The znode paths of nodes, how node ids are read back from them, and the order in which the children
    of an address space are applied. */
module Paths {
  import opened Sequences
  import opened Graphs
  import opened Widths

  const LLONG_MAX := 0x7fff_ffff_ffff_ffff
  const LLONG_MIN := -0x8000_0000_0000_0000

  /** A node id as the server stores it: 16 and 32 bits. */
  predicate Stored(n: NodeId) {
    n.ns < TWO16 && n.id < TWO32
  }

  // ---------- Printing ----------

  /** What %d prints for a 32-bit unsigned number. */
  function Signed(id: nat): int {
    if id < TWO31 then id else id - TWO32
  }

  function DigitChar(d: nat): char
    requires d < 10
  {
    ('0' as int + d) as char
  }

  function Digits(n: nat): string {
    if n < 10 then [DigitChar(n)] else Digits(n / 10) + [DigitChar(n % 10)]
  }

  function Decimal(v: int): string {
    if v < 0 then "-" + Digits(-v) else Digits(v)
  }

  function Name(n: NodeId): string {
    "ns=" + Decimal(n.ns) + ";i=" + Decimal(Signed(n.id))
  }

  /** zkUA_encodeZnodePath. */
  function Path(prefix: string, n: NodeId): string {
    prefix + "/" + Name(n)
  }

  // ---------- Reading ----------

  /** strstr: the rest of s from the first occurrence of pat. */
  function StrStr(s: string, pat: string): (r: Option<string>)
    ensures r.Some? ==> pat <= r.value && |r.value| <= |s|
  {
    if pat <= s then Some(s)
    else if s == "" then None
    else StrStr(s[1..], pat)
  }

  predicate Contains(s: string, pat: string) {
    StrStr(s, pat).Some?
  }

  predicate IsSpace(c: char) {
    c == ' ' || '\t' <= c <= '\r'
  }

  predicate IsDigit(c: char) {
    '0' <= c <= '9'
  }

  function SkipSpace(s: string): string {
    if s != "" && IsSpace(s[0]) then SkipSpace(s[1..]) else s
  }

  function DigitsValue(s: string, acc: nat): nat {
    if s != "" && IsDigit(s[0]) then DigitsValue(s[1..], 10 * acc + (s[0] as int - '0' as int)) else acc
  }

  function Clamp(v: int): int {
    if v > LLONG_MAX then LLONG_MAX else if v < LLONG_MIN then LLONG_MIN else v
  }

  /** strtoll in base 10: spaces, a sign, digits, and whatever follows them is ignored. */
  function StrToLL(s: string): int {
    var t := SkipSpace(s);
    if t != "" && t[0] == '-' then Clamp(0 - DigitsValue(t[1..], 0))
    else if t != "" && t[0] == '+' then Clamp(DigitsValue(t[1..], 0))
    else Clamp(DigitsValue(t, 0))
  }

  /** zkUA_extractNsIndexNodeId. None where the original's behaviour is undefined: one of the two
      substrings is missing, or the length computed for the first number wraps around. */
  function Extract(s: string): Option<(string, string)> {
    match (StrStr(s, "ns="), StrStr(s, ";i="))
    case (Some(cmpNs), Some(cmpId)) =>
      var sizeofNs := |cmpNs| - 3 - |cmpId|;
      if sizeofNs < 0 then None else Some((cmpNs[3..3 + sizeofNs], cmpId[3..]))
    case _ => None
  }

  /** The node id that the watcher deletes when a path is deleted: both numbers are truncated. */
  function ReadNodeId(path: string): Option<NodeId> {
    match Extract(path)
    case None => None
    case Some(parts) => Some(NodeId(StrToLL(parts.0) % TWO16, StrToLL(parts.1) % TWO32))
  }

  // ---------- Numbers ----------

  lemma {:induction false} DigitsNumeric(n: nat)
    ensures Digits(n) != "" && forall i :: 0 <= i < |Digits(n)| ==> IsDigit(Digits(n)[i])
  {
    if n >= 10 {
      DigitsNumeric(n / 10);
    }
  }

  lemma {:induction false} ReadDigits(n: nat, rest: string)
    ensures DigitsValue(Digits(n) + rest, 0) == DigitsValue(rest, n)
  {
    if n < 10 {
      assert (Digits(n) + rest)[1..] == rest;
    } else {
      var last := [DigitChar(n % 10)];
      assert Digits(n) + rest == Digits(n / 10) + (last + rest);
      ReadDigits(n / 10, last + rest);
      assert (last + rest)[1..] == rest;
    }
  }

  /** What is printed is read back, clamped to 64 bits. */
  lemma ReadDecimal(v: int)
    ensures LLONG_MIN <= v <= LLONG_MAX ==> StrToLL(Decimal(v)) == v
    ensures StrToLL(Decimal(v)) == if v > 9223372036854775807 then 9223372036854775807
                                   else if v < -9223372036854775808 then -9223372036854775808 else v
  {
    var n := if v < 0 then -v else v;
    DigitsNumeric(n);
    ReadDigits(n, "");
    assert Digits(n) + "" == Digits(n);
    assert v < 0 ==> ("-" + Digits(n))[1..] == Digits(n);
  }

  /** Spaces and a sign before the digits are read, and what follows them is ignored. */
  lemma ReadAround(n: nat, rest: string)
    requires n <= 9223372036854775807 && (rest == "" || !('0' <= rest[0] <= '9'))
    ensures StrToLL(Digits(n) + rest) == n && StrToLL(" " + (Digits(n) + rest)) == n
    ensures StrToLL("+" + (Digits(n) + rest)) == n && StrToLL("-" + (Digits(n) + rest)) == 0 - n
  {
    var s := Digits(n) + rest;
    DigitsNumeric(n);
    ReadDigits(n, rest);
    assert s[0] == Digits(n)[0];
    assert (" " + s)[1..] == s && ("+" + s)[1..] == s && ("-" + s)[1..] == s;
  }

  lemma DecimalInjective(m: nat, n: nat)
    requires Decimal(m) == Decimal(n)
    ensures m == n
  {
    ReadDigits(m, "");
    ReadDigits(n, "");
    assert Digits(m) + "" == Digits(m) && Digits(n) + "" == Digits(n);
  }

  lemma DecimalChars(v: int)
    ensures forall c :: c in Decimal(v) ==> IsDigit(c) || c == '-'
  {
    DigitsNumeric(if v < 0 then -v else v);
  }

  // ---------- Searching ----------

  /** What does not contain the first character of the pattern is skipped. */
  lemma {:induction false} SkipOver(p: string, s: string, pat: string)
    requires pat != "" && pat[0] !in p
    ensures StrStr(p + s, pat) == StrStr(s, pat)
  {
    if p == "" {
      assert p + s == s;
    } else {
      assert (p + s)[0] == p[0] && p[0] in p;
      assert (p + s)[1..] == p[1..] + s;
      SkipOver(p[1..], s, pat);
    }
  }

  /** A pattern without '/' does not reach across one. */
  lemma {:induction false} SearchAcross(p: string, s: string, pat: string)
    requires pat != "" && '/' !in pat
    ensures StrStr(p + "/" + s, pat) ==
            if Contains(p, pat) then Some(StrStr(p, pat).value + "/" + s) else StrStr(s, pat)
  {
    var t := p + "/" + s;
    assert t[|p|] == '/';
    assert pat <= t <==> pat <= p by {
      if pat <= t && |pat| <= |p| {
        assert t[..|pat|] == p[..|pat|];
      }
      if pat <= p {
        assert t[..|pat|] == p[..|pat|];
      }
    }
    if p == "" {
      assert t[1..] == s;
    } else {
      assert t[1..] == p[1..] + "/" + s;
      SearchAcross(p[1..], s, pat);
    }
  }

  lemma SearchName(n: NodeId)
    ensures StrStr(Name(n), "ns=") == Some(Name(n))
    ensures StrStr(Name(n), ";i=") == Some(";i=" + Decimal(Signed(n.id)))
  {
    var rest := ";i=" + Decimal(Signed(n.id));
    DecimalChars(n.ns);
    assert Name(n) == ("ns=" + Decimal(n.ns)) + rest;
    SkipOver("ns=" + Decimal(n.ns), rest, ";i=");
  }

  lemma ExtractName(n: NodeId)
    ensures Extract(Name(n)) == Some((Decimal(n.ns), Decimal(Signed(n.id))))
  {
    SearchName(n);
    assert Name(n)[3..3 + |Decimal(n.ns)|] == Decimal(n.ns);
    assert (";i=" + Decimal(Signed(n.id)))[3..] == Decimal(Signed(n.id));
  }

  // ---------- Round trip ----------

  /** A prefix in which neither marker occurs. */
  predicate Clean(prefix: string) {
    !Contains(prefix, "ns=") && !Contains(prefix, ";i=")
  }

  lemma ExtractClean(prefix: string, n: NodeId)
    requires Clean(prefix)
    ensures Extract(Path(prefix, n)) == Extract(Name(n))
  {
    hide Name, StrStr;
    SearchAcross(prefix, Name(n), "ns=");
    SearchAcross(prefix, Name(n), ";i=");
  }

  lemma ReadClean(prefix: string, n: NodeId)
    requires Clean(prefix) && Stored(n)
    ensures ReadNodeId(Path(prefix, n)) == Some(n)
  {
    hide Extract, Path, Name, Clean, StrToLL, Decimal;
    ExtractClean(prefix, n);
    ExtractName(n);
    ReadDecimal(n.ns);
    ReadDecimal(Signed(n.id));
  }

  /** A number ends at the latest at a '/'. */
  lemma {:induction false} NumberEnds(a: string, s: string, t: string, acc: nat)
    ensures DigitsValue(a + "/" + s, acc) == DigitsValue(a + "/" + t, acc)
  {
    if a != "" && IsDigit(a[0]) {
      assert (a + "/" + s)[1..] == a[1..] + "/" + s && (a + "/" + t)[1..] == a[1..] + "/" + t;
      NumberEnds(a[1..], s, t, 10 * acc + (a[0] as int - '0' as int));
    }
  }

  lemma {:induction false} ReadEnds(a: string, s: string, t: string)
    ensures StrToLL(a + "/" + s) == StrToLL(a + "/" + t)
  {
    var x, y := a + "/" + s, a + "/" + t;
    if a != "" {
      assert x[1..] == a[1..] + "/" + s && y[1..] == a[1..] + "/" + t;
      if IsSpace(a[0]) {
        ReadEnds(a[1..], s, t);
      } else {
        NumberEnds(a[1..], s, t, 0);
        NumberEnds(a, s, t, 0);
      }
    } else {
      NumberEnds(a, s, t, 0);
    }
  }

  /** What is extracted as the namespace index behind a prefix with "ns=" in it. */
  lemma ExtractBehindMarker(prefix: string, n: NodeId)
    requires Contains(prefix, "ns=")
    ensures var a := StrStr(prefix, "ns=").value;
            Extract(Path(prefix, n)).Some? ==>
              Extract(Path(prefix, n)).value.0 ==
              match StrStr(prefix, ";i=")
              case Some(b) => if |a| >= 3 + |b| then a[3..|a| - |b|] else ""
              case None => a[3..] + "/" + ("ns=" + Decimal(n.ns))
  {
    hide StrStr, Decimal;
    var a := StrStr(prefix, "ns=").value;
    var name := Name(n);
    SearchAcross(prefix, name, "ns=");
    SearchAcross(prefix, name, ";i=");
    SearchName(n);
    match StrStr(prefix, ";i=")
    case Some(b) =>
      if |a| >= 3 + |b| {
        assert (a + "/" + name)[3..|a| - |b|] == a[3..|a| - |b|];
      }
    case None =>
      var start := "ns=" + Decimal(n.ns);
      assert a + "/" + name == (a + "/" + start) + (";i=" + Decimal(Signed(n.id)));
      assert (a + "/" + start)[3..] == a[3..] + "/" + start;
  }

  /** It does not depend on the node, once it is read as a number. */
  lemma MarkerInPrefix(prefix: string, m: NodeId, n: NodeId)
    requires Contains(prefix, "ns=") && Extract(Path(prefix, m)).Some? && Extract(Path(prefix, n)).Some?
    ensures StrToLL(Extract(Path(prefix, m)).value.0) == StrToLL(Extract(Path(prefix, n)).value.0)
  {
    hide StrStr, Decimal, Extract, Path, Name, StrToLL;
    ExtractBehindMarker(prefix, m);
    ExtractBehindMarker(prefix, n);
    var a := StrStr(prefix, "ns=").value;
    ReadEnds(a[3..], "ns=" + Decimal(m.ns), "ns=" + Decimal(n.ns));
  }

  /** Every node id is read back from its path, even though identifiers from 2^31 on are printed as
      negative numbers, exactly if the prefix contains neither "ns=" nor ";i=". */
  lemma PathRoundTrip(prefix: string)
    ensures (forall n :: Stored(n) ==> ReadNodeId(Path(prefix, n)) == Some(n)) <==> Clean(prefix)
  {
    if Clean(prefix) {
      forall n | Stored(n)
        ensures ReadNodeId(Path(prefix, n)) == Some(n)
      {
        ReadClean(prefix, n);
      }
    } else {
      var m, n := NodeId(0, 0), NodeId(1, 0);
      if Contains(prefix, "ns=") {
        if Extract(Path(prefix, m)).Some? && Extract(Path(prefix, n)).Some? {
          MarkerInPrefix(prefix, m, n);
        }
        assert ReadNodeId(Path(prefix, m)) != Some(m) || ReadNodeId(Path(prefix, n)) != Some(n);
      } else {
        SearchAcross(prefix, Name(m), "ns=");
        SearchAcross(prefix, Name(m), ";i=");
        SearchName(m);
        assert ReadNodeId(Path(prefix, m)) == None;
      }
      assert Stored(m) && Stored(n);
    }
  }

  /** The prefix of an address space, "/Servers/<group>/AddressSpace", is clean: a group id has no '='. */
  lemma {:induction false} NoEqualsIsClean(prefix: string)
    requires '=' !in prefix
    ensures Clean(prefix)
  {
    NoMarker(prefix, "ns=");
    NoMarker(prefix, ";i=");
  }

  lemma {:induction false} NoMarker(s: string, pat: string)
    requires '=' !in s && |pat| == 3 && pat[2] == '='
    ensures !Contains(s, pat)
  {
    if |s| > 2 {
      assert s[2] in s;
    }
    if s != "" {
      NoMarker(s[1..], pat);
    }
  }

  /** Different nodes have different paths, whatever the prefix. */
  /** A path, spelled out. */
  lemma PrintedPath()
    ensures Path("/Servers/1/AddressSpace", NodeId(10, 2253)) == "/Servers/1/AddressSpace/ns=10;i=2253"
  {
    assert Digits(1) == "1" && Digits(10) == "10";
    assert Digits(2) == "2" && Digits(22) == "22" && Digits(225) == "225" && Digits(2253) == "2253";
  }

  /** Identifiers from 2^31 on are printed as negative numbers, the largest as -1. */
  lemma PrintedSigned(id: nat)
    requires id < 4294967296
    ensures Path("", NodeId(0, id)) ==
            if id < 2147483648 then "/ns=0;i=" + Digits(id) else "/ns=0;i=-" + Digits(4294967296 - id)
    ensures Digits(0) == "0" && Digits(1) == "1"
  {
    assert Digits(0) == "0";
  }

  lemma PathsDiffer(prefix: string, m: NodeId, n: NodeId)
    requires Stored(m) && Stored(n)
    ensures Path(prefix, m) == Path(prefix, n) <==> m == n
  {
    if Path(prefix, m) == Path(prefix, n) {
      assert Path(prefix, m)[|prefix| + 1..] == Name(m) && Path(prefix, n)[|prefix| + 1..] == Name(n);
      ExtractName(m);
      ExtractName(n);
      ReadDecimal(m.ns);
      ReadDecimal(n.ns);
      ReadDecimal(Signed(m.id));
      ReadDecimal(Signed(n.id));
    }
  }

  // ---------- Events ----------

  datatype Command = Ignore | DeleteNode(n: NodeId) | FetchNode(path: string) | FetchAll(parent: string) | Undefined

  const ZOO_DELETED_EVENT := 2
  const ZOO_CHANGED_EVENT := 3
  const ZOO_CHILD_EVENT := 4

  /** zkUA_addressSpaceWatcher: what a server does about an event. */
  function Dispatch(event: int, path: string, addressSpace: string): Command {
    if path == "" then Ignore
    else if event == ZOO_DELETED_EVENT then
      match ReadNodeId(path)
      case Some(n) => DeleteNode(n)
      case None => Undefined
    else if event == ZOO_CHANGED_EVENT then FetchNode(path)
    else if event == ZOO_CHILD_EVENT then FetchAll(addressSpace)
    else Ignore
  }

  /** The deletion of a znode deletes the node that it stood for, and no other. */
  lemma DeletedZnodeDeletesItsNode(prefix: string, n: NodeId)
    requires Clean(prefix) && Stored(n)
    ensures Dispatch(ZOO_DELETED_EVENT, Path(prefix, n), prefix) == DeleteNode(n)
  {
    ReadClean(prefix, n);
  }
}
