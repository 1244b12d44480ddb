/** 32-bit words as registers of 32 bits, lowest bit first. */
module Words {
  import opened Bytes

  // ---------- registers ----------

  type Register = s: seq<bool> | |s| == 32 witness seq(32, _ => false)

  function Xor(a: Register, b: Register): Register
  {
    seq(32, i requires 0 <= i < 32 => a[i] != b[i])
  }

  /** One's complement. */
  function Flip(a: Register): Register
  {
    seq(32, i requires 0 <= i < 32 => !a[i])
  }

  function ShiftDown(a: Register): Register
  {
    a[1..] + [false]
  }

  function Zero(): Register
  {
    seq(32, _ => false)
  }

  function Ones(): Register
  {
    seq(32, _ => true)
  }

  // ---------- registers and natural numbers ----------

  function Number(s: seq<bool>): nat
  {
    if s == [] then 0 else (if s[0] then 1 else 0) + 2 * Number(s[1..])
  }

  function BitsOf(v: nat, n: nat): (s: seq<bool>)
    ensures |s| == n
  {
    if n == 0 then [] else [v % 2 == 1] + BitsOf(v / 2, n - 1)
  }

  function Pow2(n: nat): (p: nat)
    ensures p > 0
  {
    if n == 0 then 1 else 2 * Pow2(n - 1)
  }

  lemma PowersOfTwo()
    ensures Pow2(8) == 256 && Pow2(32) == U32
  {
    assert Pow2(4) == 16;
    assert Pow2(8) == 256;
    assert Pow2(12) == 0x1000;
    assert Pow2(16) == 0x1_0000;
    assert Pow2(20) == 0x10_0000;
    assert Pow2(24) == 0x100_0000;
    assert Pow2(28) == 0x1000_0000;
  }

  lemma {:induction false} NumberBound(s: seq<bool>)
    ensures Number(s) < Pow2(|s|)
  {
    if s != [] {
      NumberBound(s[1..]);
    }
  }

  lemma RegisterNumberBound(a: Register)
    ensures Number(a) < U32
  {
    NumberBound(a);
    PowersOfTwo();
  }

  lemma {:induction false} NumberInjective(s: seq<bool>, t: seq<bool>)
    requires |s| == |t| && Number(s) == Number(t)
    ensures s == t
  {
    if s != [] {
      assert s[0] == t[0] && Number(s[1..]) == Number(t[1..]);
      NumberInjective(s[1..], t[1..]);
      assert s == [s[0]] + s[1..] && t == [t[0]] + t[1..];
    }
  }

  lemma {:induction false} NumberOfBits(v: nat, n: nat)
    requires v < Pow2(n)
    ensures Number(BitsOf(v, n)) == v
  {
    if n > 0 {
      NumberOfBits(v / 2, n - 1);
      assert BitsOf(v, n)[1..] == BitsOf(v / 2, n - 1);
    }
  }

  lemma {:induction false} BitsOfNumber(s: seq<bool>)
    ensures BitsOf(Number(s), |s|) == s
  {
    if s != [] {
      BitsOfNumber(s[1..]);
    }
  }

  /** The n lowest bits and the bits above them. */
  lemma {:induction false} BitsSplit(q: nat, r: nat, n: nat, m: nat)
    requires r < Pow2(n)
    ensures BitsOf(q * Pow2(n) + r, n + m) == BitsOf(r, n) + BitsOf(q, m)
  {
    if n > 0 {
      HalfOfSum(q, r, Pow2(n - 1));
      BitsSplit(q, r / 2, n - 1, m);
    }
  }

  lemma HalfOfSum(q: nat, r: nat, half: nat)
    requires r < 2 * half
    ensures var v := q * (2 * half) + r; v % 2 == r % 2 && v / 2 == q * half + r / 2 && r / 2 < half
  {
    DoubledProduct(q, half);
    EvenPlus(q * half, r);
  }

  lemma DoubledProduct(q: nat, half: nat)
    ensures q * (2 * half) == 2 * (q * half)
  {
  }

  lemma EvenPlus(h: nat, r: nat)
    ensures (2 * h + r) % 2 == r % 2 && (2 * h + r) / 2 == h + r / 2
  {
  }

  // ---------- registers and machine words ----------

  predicate Odd(w: bv32)
  {
    w & 1 == 1
  }

  function Half(w: bv32): bv32
  {
    w >> 1
  }

  predicate BitAt(w: bv32, i: nat)
  {
    if i == 0 then Odd(w) else BitAt(Half(w), i - 1)
  }

  /** The register r is what the machine word w holds. */
  ghost predicate Holds(w: bv32, r: Register)
  {
    forall i :: 0 <= i < 32 ==> BitAt(w, i) == r[i]
  }

  /** The register of a machine word. */
  function Content(w: bv32): Register
  {
    seq(32, i requires 0 <= i < 32 => BitAt(w, i))
  }

  lemma HoldsContent(w: bv32, r: Register)
    ensures Holds(w, Content(w))
    ensures Holds(w, r) ==> r == Content(w)
  {
  }

  lemma XorHalf(a: bv32, b: bv32, c: bv32, a': bv32, b': bv32, c': bv32)
    requires c == a ^ b && a' == Half(a) && b' == Half(b) && c' == Half(c)
    ensures c' == a' ^ b'
  {
  }

  lemma XorOdd(a: bv32, b: bv32, c: bv32)
    requires c == a ^ b
    ensures Odd(c) == (Odd(a) != Odd(b))
  {
  }

  lemma {:induction false} XorBit(a: bv32, b: bv32, c: bv32, i: nat)
    requires c == a ^ b
    ensures BitAt(c, i) == (BitAt(a, i) != BitAt(b, i))
    decreases i
  {
    if i == 0 {
      XorOdd(a, b, c);
    } else {
      XorHalf(a, b, c, Half(a), Half(b), Half(c));
      XorBit(Half(a), Half(b), Half(c), i - 1);
    }
  }

  lemma XorHolds(a: bv32, ra: Register, b: bv32, rb: Register, c: bv32)
    requires Holds(a, ra) && Holds(b, rb) && c == a ^ b
    ensures Holds(c, Xor(ra, rb))
  {
    forall i | 0 <= i < 32
      ensures BitAt(c, i) == Xor(ra, rb)[i]
    {
      XorBit(a, b, c, i);
    }
  }

  /** w has no bit at position n or above. */
  predicate Fits(w: bv32, n: nat)
  {
    if n == 0 then w == 0 else Fits(Half(w), n - 1)
  }

  lemma Half4(w: bv32, v: bv32)
    requires v == w >> 4
    ensures v == Half(Half(Half(Half(w))))
  {
  }

  lemma FourBits(w: bv32, v: bv32, n: nat)
    requires v == w >> 4
    ensures Fits(w, n + 4) == Fits(v, n) && BitAt(w, n + 4) == BitAt(v, n)
  {
    Half4(w, v);
    assert Fits(w, n + 4) == Fits(Half(Half(w)), n + 2);
    assert BitAt(w, n + 4) == BitAt(Half(Half(w)), n + 2);
  }

  lemma EveryWordFits()
    ensures Fits(0xFFFF_FFFF, 32)
  {
    FourBits(0xFFFF_FFFF, 0xFFF_FFFF, 28);
    FourBits(0xFFF_FFFF, 0xFF_FFFF, 24);
    FourBits(0xFF_FFFF, 0xF_FFFF, 20);
    FourBits(0xF_FFFF, 0xFFFF, 16);
    FourBits(0xFFFF, 0xFFF, 12);
    FourBits(0xFFF, 0xFF, 8);
    FourBits(0xFF, 0xF, 4);
    FourBits(0xF, 0, 0);
  }

  lemma HalfMonotone(w: bv32, m: bv32, w': bv32, m': bv32)
    requires w <= m && w' == Half(w) && m' == Half(m)
    ensures w' <= m'
  {
  }

  lemma {:induction false} NoHighBit(w: bv32, m: bv32, n: nat)
    requires w <= m && Fits(m, n)
    ensures !BitAt(w, n)
    decreases n
  {
    if n > 0 {
      HalfMonotone(w, m, Half(w), Half(m));
      NoHighBit(Half(w), Half(m), n - 1);
    }
  }

  lemma HalfHolds(w: bv32, r: Register)
    requires Holds(w, r)
    ensures Holds(Half(w), ShiftDown(r))
  {
    EveryWordFits();
    NoHighBit(w, 0xFFFF_FFFF, 32);
    forall i | 0 <= i < 32
      ensures BitAt(Half(w), i) == ShiftDown(r)[i]
    {
      assert BitAt(w, i + 1) == BitAt(Half(w), i);
    }
  }

  lemma ShiftByte(w: bv32)
    ensures w >> 8 == Half(Half(Half(Half(Half(Half(Half(Half(w))))))))
  {
  }

  function ShiftDown8(a: Register): Register
  {
    a[8..] + [false, false, false, false, false, false, false, false]
  }

  lemma Half8Holds(w: bv32, r: Register, v: bv32)
    requires Holds(w, r) && v == w >> 8
    ensures Holds(v, ShiftDown8(r))
  {
    var r2 := ShiftDown(ShiftDown(r));
    var r4 := ShiftDown(ShiftDown(r2));
    var r6 := ShiftDown(ShiftDown(r4));
    assert r2 == r[2..] + [false, false];
    assert r4 == r2[2..] + [false, false];
    assert r4 == r[4..] + [false, false, false, false];
    assert r6 == r4[2..] + [false, false];
    assert r6 == r[6..] + [false, false, false, false, false, false];
    HalfHolds(w, r);
    HalfHolds(Half(w), ShiftDown(r));
    var w2 := Half(Half(w));
    HalfHolds(w2, r2);
    HalfHolds(Half(w2), ShiftDown(r2));
    var w4 := Half(Half(w2));
    HalfHolds(w4, r4);
    HalfHolds(Half(w4), ShiftDown(r4));
    var w6 := Half(Half(w4));
    HalfHolds(w6, r6);
    HalfHolds(Half(w6), ShiftDown(r6));
    ShiftByte(w);
    assert ShiftDown(ShiftDown(r6)) == ShiftDown8(r);
  }

  lemma ComplementIsXor(w: bv32, ones: bv32)
    requires ones == 0xFFFF_FFFF
    ensures !w == w ^ ones
  {
  }

  predicate IsOnes(w: bv32, n: nat)
  {
    n == 0 || (Odd(w) && IsOnes(Half(w), n - 1))
  }

  lemma {:induction false} OnesBit(w: bv32, n: nat, i: nat)
    requires i < n && IsOnes(w, n)
    ensures BitAt(w, i)
  {
    if i > 0 {
      OnesBit(Half(w), n - 1, i - 1);
    }
  }

  lemma LowOnes(w: bv32, v: bv32)
    requires v == w >> 4 && w & 0xF == 0xF
    ensures Odd(w) && Odd(Half(w)) && Odd(Half(Half(w))) && Odd(Half(Half(Half(w))))
    ensures v == Half(Half(Half(Half(w))))
  {
  }

  lemma FourOnes(w: bv32, v: bv32, n: nat)
    requires v == w >> 4 && w & 0xF == 0xF && IsOnes(v, n)
    ensures IsOnes(w, n + 4)
  {
    LowOnes(w, v);
    assert IsOnes(Half(Half(w)), n + 2);
  }

  lemma OnesHold()
    ensures Holds(0xFFFF_FFFF, Ones())
  {
    FourOnes(0xF, 0, 0);
    FourOnes(0xFF, 0xF, 4);
    FourOnes(0xFFF, 0xFF, 8);
    FourOnes(0xFFFF, 0xFFF, 12);
    FourOnes(0xF_FFFF, 0xFFFF, 16);
    FourOnes(0xFF_FFFF, 0xF_FFFF, 20);
    FourOnes(0xFFF_FFFF, 0xFF_FFFF, 24);
    FourOnes(0xFFFF_FFFF, 0xFFF_FFFF, 28);
    forall i | 0 <= i < 32
      ensures BitAt(0xFFFF_FFFF, i)
    {
      OnesBit(0xFFFF_FFFF, 32, i);
    }
  }

  lemma FlipHolds(w: bv32, r: Register)
    requires Holds(w, r)
    ensures Holds(!w, Flip(r))
  {
    var ones: bv32 := 0xFFFF_FFFF;
    ComplementIsXor(w, ones);
    OnesHold();
    XorHolds(w, r, ones, Ones(), w ^ ones);
    assert Xor(r, Ones()) == Flip(r);
  }

  lemma AndHalf(a: bv32, b: bv32, c: bv32, a': bv32, b': bv32, c': bv32)
    requires c == a & b && a' == Half(a) && b' == Half(b) && c' == Half(c)
    ensures c' == a' & b'
  {
  }

  lemma AndOdd(a: bv32, b: bv32, c: bv32)
    requires c == a & b
    ensures Odd(c) == (Odd(a) && Odd(b))
  {
  }

  lemma {:induction false} AndBit(a: bv32, b: bv32, c: bv32, i: nat)
    requires c == a & b
    ensures BitAt(c, i) == (BitAt(a, i) && BitAt(b, i))
    decreases i
  {
    if i == 0 {
      AndOdd(a, b, c);
    } else {
      AndHalf(a, b, c, Half(a), Half(b), Half(c));
      AndBit(Half(a), Half(b), Half(c), i - 1);
    }
  }

  lemma {:induction false} ZeroBit(i: nat)
    ensures !BitAt(0, i)
  {
    if i > 0 {
      ZeroBit(i - 1);
    }
  }

  function LowByte(a: Register): Register
  {
    a[..8] + seq(24, _ => false)
  }

  lemma LowByteHolds(w: bv32, r: Register, m: bv32)
    requires Holds(w, r) && m == w & 0xFF
    ensures Holds(m, LowByte(r))
  {
    FourOnes(0xF, 0, 0);
    FourOnes(0xFF, 0xF, 4);
    forall i | 0 <= i < 32
      ensures BitAt(m, i) == LowByte(r)[i]
    {
      AndBit(w, 0xFF, m, i);
      if i < 8 {
        OnesBit(0xFF, 8, i);
      } else {
        FourBits(0xFF, 0xF, i - 4);
        FourBits(0xF, 0, i - 8);
        ZeroBit(i - 8);
      }
    }
  }

  // ---------- bytes as words ----------

  /** A byte widened to 32 bits. */
  function Word(b: byte): bv32
  {
    WordOf(b, 8)
  }

  function WordOf(v: nat, n: nat): bv32
  {
    if n == 0 then 0 else Push(WordOf(v / 2, n - 1), v % 2 == 1)
  }

  function Push(w: bv32, low: bool): bv32
  {
    if low then (w << 1) | 1 else w << 1
  }

  function ByteRegister(b: byte): Register
  {
    BitsOf(b, 8) + seq(24, _ => false)
  }

  lemma PushTop(w: bv32, m: bv32)
    requires w | m == m && m <= 0x7FFF_FFFF
    ensures w & 0x8000_0000 == 0
  {
  }

  lemma PushOne(w: bv32, p: bv32)
    requires p == (w << 1) | 1 && w & 0x8000_0000 == 0
    ensures Odd(p) && Half(p) == w
  {
  }

  lemma PushZero(w: bv32, p: bv32)
    requires p == w << 1 && w & 0x8000_0000 == 0
    ensures !Odd(p) && Half(p) == w
  {
  }

  lemma PushWithin(w: bv32, m: bv32, p: bv32, q: bv32)
    requires w | m == m && (p == (w << 1) | 1 || p == w << 1) && q == (m << 1) | 1
    ensures p | q == q
  {
  }

  /** Every bit of w is a bit of m. */
  predicate Within(w: bv32, m: bv32)
  {
    w | m == m
  }

  lemma PushFacts(w: bv32, low: bool, p: bv32, m: bv32, q: bv32)
    requires p == Push(w, low) && q == Push(m, true) && Within(w, m) && m <= 0x7FFF_FFFF
    ensures Odd(p) == low && Half(p) == w
    ensures Within(p, q)
  {
    PushTop(w, m);
    if low {
      PushOne(w, p);
    } else {
      PushZero(w, p);
    }
    PushWithin(w, m, p, q);
  }

  lemma HalfOfOnes(m: bv32, h: bv32)
    requires h == Half(m) && Odd(m)
    ensures h <= 0x7FFF_FFFF && Push(h, true) == m
  {
  }

  lemma {:induction false} WordOfStep(v: nat, n: nat, m: bv32)
    requires IsOnes(m, n)
    ensures Within(WordOf(v, n), m)
    ensures n > 0 ==> Odd(WordOf(v, n)) == (v % 2 == 1) && Half(WordOf(v, n)) == WordOf(v / 2, n - 1)
  {
    if n == 0 {
      ZeroWithin(m);
    } else {
      HalfOfOnes(m, Half(m));
      WordOfStep(v / 2, n - 1, Half(m));
      PushFacts(WordOf(v / 2, n - 1), v % 2 == 1, WordOf(v, n), Half(m), m);
    }
  }

  lemma {:induction false} WordOfBits(v: nat, n: nat, m: bv32, i: nat)
    requires IsOnes(m, n)
    ensures BitAt(WordOf(v, n), i) == (i < n && BitsOf(v, n)[i])
    decreases n
  {
    WordOfStep(v, n, m);
    if n == 0 {
      ZeroBit(i);
    } else if i > 0 {
      WordOfBits(v / 2, n - 1, Half(m), i - 1);
    }
  }

  lemma ZeroWithin(m: bv32)
    ensures Within(0, m)
  {
  }

  lemma BelowMask(w: bv32)
    requires Within(w, 0xFF)
    ensures w <= 0xFF
  {
  }

  lemma ByteHolds(b: byte)
    ensures Word(b) <= 0xFF && Holds(Word(b), ByteRegister(b))
  {
    FourOnes(0xF, 0, 0);
    FourOnes(0xFF, 0xF, 4);
    WordOfStep(b, 8, 0xFF);
    BelowMask(Word(b));
    forall i | 0 <= i < 32
      ensures BitAt(Word(b), i) == ByteRegister(b)[i]
    {
      WordOfBits(b, 8, 0xFF, i);
    }
  }
}
