/** The table's own mixing of a hash, on 32 bits, and which hashes it identifies. */
module Mixing {
  import opened Widths

  /** The mixing up to its first addition, its first rotation and its second addition. */
  function Mix1(h: bv32): bv32 {
    h + !(h << 9)
  }

  function Mix2(h: bv32): bv32 {
    Xored14(Mix1(h))
  }

  function Mix3(h: bv32): bv32 {
    Times17(Mix2(h))
  }

  function Times17(x: bv32): bv32 {
    x + (x << 4)
  }

  function Rotated14(x: bv32): bv32 {
    (x >> 14) | (x << 18)
  }

  function Rotated10(x: bv32): bv32 {
    (x >> 10) | (x << 22)
  }

  function Xored14(x: bv32): bv32 {
    x ^ Rotated14(x)
  }

  function Xored10(x: bv32): bv32 {
    x ^ Rotated10(x)
  }

  /** The four patterns of period two, which a rotation by 10 or by 14 places leaves alone. */
  predicate PeriodTwo(d: bv32) {
    d == 0 || d == 0x5555_5555 || d == 0xaaaa_aaaa || d == 0xffff_ffff
  }

  /** The mixing of a hash. */
  function Mix(h: bv32): bv32 {
    Xored10(Mix3(h))
  }

  /** Numbers below 2^32 and words. */
  function Word(n: nat): bv32
    requires n < TWO32
  {
    n as bv32
  }

  function Number(w: bv32): (n: nat)
    ensures n < TWO32
  {
    w as nat
  }

  lemma BackToWord(w: bv32)
    ensures Word(Number(w)) == w
  {
  }

  lemma SameNumber(a: bv32, b: bv32)
    ensures Number(a) == Number(b) <==> a == b
  {
    hide Word, Number;
    BackToWord(a);
    BackToWord(b);
  }

  /** The words differ by such a pattern. */
  predicate Alike(x: bv32, y: bv32) {
    PeriodTwo(x ^ y)
  }

  lemma XorSwaps(a: bv32, b: bv32, c: bv32, d: bv32)
    ensures a ^ b == c ^ d <==> a ^ c == b ^ d
  {
  }

  lemma Rotation14IsLinear(x: bv32, y: bv32)
    ensures Rotated14(x) ^ Rotated14(y) == Rotated14(x ^ y)
  {
  }

  lemma Rotation10IsLinear(x: bv32, y: bv32)
    ensures Rotated10(x) ^ Rotated10(y) == Rotated10(x ^ y)
  {
  }

  lemma FixedBy14(d: bv32)
    ensures Rotated14(d) == d <==> PeriodTwo(d)
  {
  }

  lemma FixedBy10(d: bv32)
    ensures Rotated10(d) == d <==> PeriodTwo(d)
  {
  }

  /** A number and its rotation, added bit by bit, are the same for two numbers exactly if these differ by a
      pattern of period two. */
  /** A number and its rotation, added bit by bit, are the same for two numbers exactly if these differ by a
      pattern of period two. */
  lemma Rotation14(x: bv32, y: bv32)
    ensures x ^ Rotated14(x) == y ^ Rotated14(y) <==> PeriodTwo(x ^ y)
  {
    hide Rotated14, PeriodTwo;
    XorSwaps(x, Rotated14(x), y, Rotated14(y));
    Rotation14IsLinear(x, y);
    FixedBy14(x ^ y);
  }

  lemma Rotation14Identifies(x: bv32, y: bv32)
    ensures Xored14(x) == Xored14(y) <==> Alike(x, y)
  {
    hide Rotated14, PeriodTwo;
    Rotation14(x, y);
  }

  lemma Rotation10(x: bv32, y: bv32)
    ensures x ^ Rotated10(x) == y ^ Rotated10(y) <==> PeriodTwo(x ^ y)
  {
    hide Rotated10, PeriodTwo;
    XorSwaps(x, Rotated10(x), y, Rotated10(y));
    Rotation10IsLinear(x, y);
    FixedBy10(x ^ y);
  }

  lemma Rotation10Identifies(x: bv32, y: bv32)
    ensures Xored10(x) == Xored10(y) <==> Alike(x, y)
  {
    hide Rotated10, PeriodTwo;
    Rotation10(x, y);
  }

  lemma LowBits9(a: bv32, b: bv32)
    requires a + !(a << 9) == b + !(b << 9)
    ensures a & 0x1ff == b & 0x1ff
  {
  }

  lemma LowBits18(a: bv32, b: bv32)
    requires a + !(a << 9) == b + !(b << 9) && a & 0x1ff == b & 0x1ff
    ensures a & 0x3_ffff == b & 0x3_ffff
  {
  }

  lemma LowBits27(a: bv32, b: bv32)
    requires a + !(a << 9) == b + !(b << 9) && a & 0x3_ffff == b & 0x3_ffff
    ensures a & 0x7ff_ffff == b & 0x7ff_ffff
  {
  }

  lemma AllBits(a: bv32, b: bv32)
    requires a + !(a << 9) == b + !(b << 9) && a & 0x7ff_ffff == b & 0x7ff_ffff
    ensures a == b
  {
  }

  /** The additions lose nothing: they multiply by odd numbers. */
  lemma FirstAdditionIsInjective(a: bv32, b: bv32)
    ensures Mix1(a) == Mix1(b) <==> a == b
  {
    if Mix1(a) == Mix1(b) {
      LowBits9(a, b);
      LowBits18(a, b);
      LowBits27(a, b);
      AllBits(a, b);
    }
  }

  lemma SecondAdditionIsInjective(a: bv32, b: bv32)
    ensures Times17(a) == Times17(b) <==> a == b
  {
  }

  lemma FirstRotationIdentifies(a: bv32, b: bv32)
    ensures Mix2(a) == Mix2(b) <==> Alike(Mix1(a), Mix1(b))
  {
    hide Xored14, Alike, Mix1;
    Rotation14Identifies(Mix1(a), Mix1(b));
  }

  lemma SecondAdditionKeeps(a: bv32, b: bv32)
    ensures Mix3(a) == Mix3(b) <==> Mix2(a) == Mix2(b)
  {
    hide Mix2, Times17;
    SecondAdditionIsInjective(Mix2(a), Mix2(b));
  }

  lemma SecondRotationIdentifies(a: bv32, b: bv32)
    ensures Mix(a) == Mix(b) <==> Alike(Mix3(a), Mix3(b))
  {
    hide Mix3, Xored10, Alike;
    Rotation10Identifies(Mix3(a), Mix3(b));
  }

  /** The mixing identifies two hashes exactly if their second additions differ by a pattern of period two; among
      them are those whose first additions do, and these are the ones that its first rotation identifies. */
  lemma MixIdentifies(a: bv32, b: bv32)
    ensures Mix(a) == Mix(b) <==> Alike(Mix3(a), Mix3(b))
    ensures Mix3(a) == Mix3(b) <==> Alike(Mix1(a), Mix1(b))
    ensures Mix1(a) == Mix1(b) <==> a == b
  {
    hide Mix, Mix1, Mix2, Mix3, Alike;
    SecondRotationIdentifies(a, b);
    SecondAdditionKeeps(a, b);
    FirstRotationIdentifies(a, b);
    FirstAdditionIsInjective(a, b);
  }

  /** Hashes that the first rotation identifies. */
  lemma TwoMixedToZero()
    ensures Mix(0x804_0201) == Mix(0x558_0156) == 0 && Mix3(0x804_0201) == Mix3(0x558_0156) == 0
  {
  }

  /** Hashes that only the second rotation identifies. */
  lemma TwoMixedAlike()
    ensures Mix(1) == Mix(0x1106_cec0) == 0xfc5d_cee7 && Mix3(1) != Mix3(0x1106_cec0)
  {
  }

  /** What becomes of two hashes, those of the empty string and of "a". */
  lemma MixedHashes()
    ensures Mix(5381) == 0x9721_3352 && Mix(177670) == 0xe94b_e31e
  {
  }
}
