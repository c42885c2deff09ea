/** The URL encoding that turns a server's URI into the name of its lock znode, on bytes: unreserved
    characters stand for themselves, a space becomes '+', and any other byte becomes '%' and two
    lower-case hexadecimal digits (sections 2.1 and 2.3 of RFC 3986). */
module Url {
  import Failover

  type Bytes = seq<bv8>

  predicate Digit(b: bv8) {
    48 <= b <= 57
  }

  predicate Alphanumeric(b: bv8) {
    Digit(b) || 65 <= b <= 90 || 97 <= b <= 122
  }

  /** Letters, digits, '-', '_', '.' and '~'. */
  predicate Unreserved(b: bv8) {
    Alphanumeric(b) || b == 45 || b == 95 || b == 46 || b == 126
  }

  function ToLower(b: bv8): bv8 {
    if 65 <= b <= 90 then b + 32 else b
  }

  /** The value of a hexadecimal digit; for other bytes, whatever the arithmetic gives. */
  function FromHex(b: bv8): bv8 {
    if Digit(b) then b - 48 else ToLower(b) - 97 + 10
  }

  function ToHex(code: bv8): bv8 {
    var v := code & 15;
    if v < 10 then 48 + v else 97 + (v - 10)
  }

  function Byte(high: bv8, low: bv8): bv8 {
    (FromHex(high) << 4) | FromHex(low)
  }

  function EncodeByte(b: bv8): Bytes {
    if Unreserved(b) then [b]
    else if b == 32 then [43]
    else [37, ToHex(b >> 4), ToHex(b & 15)]
  }

  function Encode(s: Bytes): Bytes {
    if s == [] then [] else EncodeByte(s[0]) + Encode(s[1..])
  }

  /** A '%' that two bytes do not follow is dropped. */
  function Decode(s: Bytes): Bytes {
    if s == [] then []
    else if s[0] == 37 then
      if |s| > 2 then [Byte(s[1], s[2])] + Decode(s[3..]) else Decode(s[1..])
    else if s[0] == 43 then [32] + Decode(s[1..])
    else [s[0]] + Decode(s[1..])
  }

  // ---------- Round trip ----------

  lemma HexDigits(b: bv8)
    ensures Byte(ToHex(b >> 4), ToHex(b & 15)) == b
    ensures Alphanumeric(ToHex(b))
  {
  }

  lemma DecodeByte(b: bv8, rest: Bytes)
    ensures Decode(EncodeByte(b) + rest) == [b] + Decode(rest)
  {
    var s := EncodeByte(b) + rest;
    if Unreserved(b) || b == 32 {
      assert s[1..] == rest;
    } else {
      HexDigits(b);
      assert s[3..] == rest;
    }
  }

  lemma {:induction false} DecodeEncode(s: Bytes)
    ensures Decode(Encode(s)) == s
  {
    if s != [] {
      DecodeByte(s[0], Encode(s[1..]));
      DecodeEncode(s[1..]);
    }
  }

  lemma EncodeInjective(s: Bytes, t: Bytes)
    requires Encode(s) == Encode(t)
    ensures s == t
  {
    DecodeEncode(s);
    DecodeEncode(t);
  }

  // ---------- Byte by byte ----------

  /** Digits, letters, '-', '.', '_' and '~' stand for themselves, a space becomes '+', and any other byte '%'
      and its two hexadecimal digits, the letters among them lower-case. */
  lemma EachByte(b: bv8)
    ensures Encode([b]) ==
            if 48 <= b <= 57 || 65 <= b <= 90 || 97 <= b <= 122 || b == 45 || b == 46 || b == 95 || b == 126 then [b]
            else if b == 32 then [43]
            else [37, if b >> 4 < 10 then 48 + (b >> 4) else 87 + (b >> 4),
                      if b & 15 < 10 then 48 + (b & 15) else 87 + (b & 15)]
  {
    assert Encode([b]) == EncodeByte(b) + Encode([]);
  }

  /** And so on for all bytes of a string. */
  lemma ByteAfterByte(s: Bytes, b: bv8)
    ensures Encode([]) == [] && Encode(s + [b]) == Encode(s) + Encode([b])
  {
    EncodeConcat(s, [b]);
  }

  /** What the decoder makes of a '%' and two hexadecimal digits, upper-case or lower-case, of a '+', and of
      any other byte; of a '%' that two bytes do not follow, nothing. */
  lemma EachEscape(h: bv8, l: bv8, rest: Bytes)
    requires (48 <= h <= 57 || 65 <= h <= 70 || 97 <= h <= 102) && (48 <= l <= 57 || 65 <= l <= 70 || 97 <= l <= 102)
    ensures Decode([37, h, l] + rest) ==
            [16 * (if h <= 57 then h - 48 else if h <= 70 then h - 55 else h - 87) +
             (if l <= 57 then l - 48 else if l <= 70 then l - 55 else l - 87)] + Decode(rest)
    ensures Decode([43] + rest) == [32] + Decode(rest)
    ensures forall b :: b != 37 && b != 43 ==> Decode([b] + rest) == [b] + Decode(rest)
    ensures Decode([37]) == [] && forall b: bv8 :: Decode([37, b]) == Decode([b])
  {
    assert ([37, h, l] + rest)[3..] == rest && ([43] + rest)[1..] == rest;
    assert forall b: bv8 :: ([b] + rest)[1..] == rest && [37, b][1..] == [b];
    assert [37 as bv8][1..] == [];
  }

  // ---------- Alphabet and sizes ----------

  predicate InAlphabet(b: bv8) {
    Unreserved(b) || b == 37 || b == 43
  }

  lemma {:induction false} EncodeAlphabet(s: Bytes)
    ensures forall i :: 0 <= i < |Encode(s)| ==> InAlphabet(Encode(s)[i])
    ensures |s| <= |Encode(s)| <= 3 * |s|
  {
    if s != [] {
      EncodeAlphabet(s[1..]);
      HexDigits(s[0] >> 4);
      HexDigits(s[0] & 15);
      assert forall i :: 0 <= i < |EncodeByte(s[0])| ==> InAlphabet(EncodeByte(s[0])[i]);
    }
  }

  /** Neither a '/' nor a NUL: the encoding is one component of a znode path, and a string. */
  lemma {:induction false} OneComponent(s: Bytes)
    ensures 47 !in Encode(s) && 0 !in Encode(s)
  {
    EncodeAlphabet(s);
    assert !InAlphabet(47) && !InAlphabet(0);
  }

  lemma {:induction false} EncodeConcat(s: Bytes, t: Bytes)
    ensures Encode(s + t) == Encode(s) + Encode(t)
  {
    if s == [] {
      assert s + t == t;
    } else {
      assert (s + t)[1..] == s[1..] + t;
      EncodeConcat(s[1..], t);
    }
  }

  lemma EncodeSnoc(s: Bytes, k: nat)
    requires k < |s|
    ensures Encode(s[..k + 1]) == Encode(s[..k]) + EncodeByte(s[k])
  {
    assert s[..k + 1] == s[..k] + [s[k]];
    EncodeConcat(s[..k], [s[k]]);
    assert Encode([s[k]]) == EncodeByte(s[k]);
  }

  lemma {:induction false} DecodeNoLonger(s: Bytes)
    ensures |Decode(s)| <= |s|
  {
    if s != [] {
      DecodeNoLonger(s[1..]);
      if |s| > 2 {
        DecodeNoLonger(s[3..]);
      }
    }
  }

  // ---------- Lock znodes ----------

  /** The znode of a server's lock: Active's path, a '/', and the encoded URI. */
  function LockPath(active: Bytes, uri: Bytes): Bytes {
    active + [47] + Encode(uri)
  }

  /** Distinct URIs have distinct lock znodes, both of them children of Active. */
  lemma LocksAreSeparate(active: Bytes, u: Bytes, v: Bytes)
    ensures LockPath(active, u) == LockPath(active, v) <==> u == v
    ensures LockPath(active, u)[..|active| + 1] == active + [47] && 47 !in LockPath(active, u)[|active| + 1..]
  {
    var p := LockPath(active, u);
    assert p[|active| + 1..] == Encode(u);
    assert LockPath(active, v)[|active| + 1..] == Encode(v);
    OneComponent(u);
    if p == LockPath(active, v) {
      EncodeInjective(u, v);
    }
  }

  /** The controllers of servers with distinct URIs compete under distinct names. */
  lemma DistinctUrisSeparate(uris: seq<Bytes>, cs: seq<Failover.Controller>)
    requires |uris| == |cs| && forall i :: 0 <= i < |cs| ==> cs[i].uri == Encode(uris[i])
    requires forall i, j :: 0 <= i < j < |uris| ==> uris[i] != uris[j]
    ensures Failover.Separate(cs)
  {
    forall i, j | 0 <= i < j < |cs|
      ensures cs[i].uri != cs[j].uri
    {
      if cs[i].uri == cs[j].uri {
        EncodeInjective(uris[i], uris[j]);
      }
    }
  }

  // ---------- The buffers ----------

  /** The array holds a NUL-terminated string of n bytes. */
  ghost predicate IsString(a: array<bv8>, n: nat)
    reads a
  {
    n < a.Length && a[n] == 0 && forall j :: 0 <= j < n ==> a[j] != 0
  }

  method StringLength(str: array<bv8>, ghost n: nat) returns (length: nat)
    requires IsString(str, n)
    ensures length == n
  {
    length := 0;
    while str[length] != 0
      invariant length <= n
      decreases n - length
    {
      length := length + 1;
    }
  }

  method Put(buf: array<bv8>, q: nat, b: bv8)
    requires q < buf.Length
    modifies buf
    ensures buf[..q + 1] == old(buf[..q]) + [b]
  {
    buf[q] := b;
  }

  method PutEscape(buf: array<bv8>, q: nat, b: bv8)
    requires q + 3 <= buf.Length
    modifies buf
    ensures buf[..q + 3] == old(buf[..q]) + [37, ToHex(b >> 4), ToHex(b & 15)]
  {
    hide ToHex;
    buf[q] := 37;
    buf[q + 1] := ToHex(b >> 4);
    buf[q + 2] := ToHex(b & 15);
  }

  /** zkUA_url_encode: the encoding of the string, NUL-terminated, in a new buffer of 3n + 1 bytes. */
  method UrlEncode(str: array<bv8>, ghost n: nat) returns (buf: array<bv8>, ghost m: nat)
    requires IsString(str, n)
    ensures fresh(buf) && buf.Length == 3 * n + 1
    ensures IsString(buf, m) && buf[..m] == Encode(str[..n])
  {
    hide Unreserved, ToHex, EncodeByte, Encode;
    ghost var s := str[..n];
    var length := StringLength(str, n);
    buf := new bv8[length * 3 + 1];
    var p, q := 0, 0;
    EncodeNothing();
    while str[p] != 0
      invariant p <= n && q <= 3 * p && str[..n] == s
      invariant q == |Encode(s[..p])| && buf[..q] == Encode(s[..p])
      decreases n - p
    {
      EncodeSnoc(s, p);
      ByteCases(str[p]);
      if Unreserved(str[p]) {
        Put(buf, q, str[p]);
        q := q + 1;
      } else if str[p] == 32 {
        Put(buf, q, 43);
        q := q + 1;
      } else {
        PutEscape(buf, q, str[p]);
        q := q + 3;
      }
      p := p + 1;
    }
    buf[q] := 0;
    m := q;
    assert s[..n] == s;
    EncodedIsString(buf, m, s);
  }

  lemma EncodedIsString(buf: array<bv8>, m: nat, s: Bytes)
    requires m < buf.Length && buf[m] == 0 && buf[..m] == Encode(s)
    ensures IsString(buf, m)
  {
    hide Encode;
    OneComponent(s);
    assert forall j :: 0 <= j < m ==> buf[j] == Encode(s)[j];
  }

  lemma EncodeNothing()
    ensures Encode([]) == []
  {
  }

  lemma ByteCases(b: bv8)
    ensures EncodeByte(b) == if Unreserved(b) then [b] else if b == 32 then [43] else [37, ToHex(b >> 4), ToHex(b & 15)]
  {
  }

  /** One round of the decoder's loop, at offset p of s, with acc in the buffer so far. */
  lemma DecodeStep(s: Bytes, p: nat, acc: Bytes)
    requires p < |s|
    ensures s[p] == 37 && p + 2 < |s| ==> acc + Decode(s[p..]) == acc + [Byte(s[p + 1], s[p + 2])] + Decode(s[p + 3..])
    ensures s[p] == 37 && p + 2 >= |s| ==> acc + Decode(s[p..]) == acc + Decode(s[p + 1..])
    ensures s[p] == 43 ==> acc + Decode(s[p..]) == acc + [32] + Decode(s[p + 1..])
    ensures s[p] != 37 && s[p] != 43 ==> acc + Decode(s[p..]) == acc + [s[p]] + Decode(s[p + 1..])
  {
  }

  lemma DecodeEmpty(s: Bytes)
    ensures Decode(s[|s|..]) == []
  {
  }

  /** zkUA_url_decode: the decoding of the string, followed by a NUL, in a new buffer of n + 1 bytes. */
  method UrlDecode(str: array<bv8>, ghost n: nat) returns (buf: array<bv8>, ghost m: nat)
    requires IsString(str, n)
    ensures fresh(buf) && buf.Length == n + 1
    ensures m <= n && buf[m] == 0 && buf[..m] == Decode(str[..n])
  {
    hide Byte, Decode;
    ghost var s := str[..n];
    var length := StringLength(str, n);
    buf := new bv8[length + 1];
    var p, q := 0, 0;
    assert s[0..] == s;
    while str[p] != 0
      invariant p <= n && q <= p && str[..n] == s
      invariant Decode(s) == buf[..q] + Decode(s[p..])
      decreases n - p
    {
      DecodeStep(s, p, buf[..q]);
      if str[p] == 37 {
        if str[p + 1] != 0 && str[p + 2] != 0 {
          Put(buf, q, Byte(str[p + 1], str[p + 2]));
          q := q + 1;
          p := p + 2;
        }
      } else if str[p] == 43 {
        Put(buf, q, 32);
        q := q + 1;
      } else {
        Put(buf, q, str[p]);
        q := q + 1;
      }
      p := p + 1;
    }
    DecodeEmpty(s);
    buf[q] := 0;
    m := q;
  }
}
