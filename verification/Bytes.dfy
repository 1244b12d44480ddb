/** Byte strings, the fixed-width little-endian integers of the file formats, and the
    order in which the engine sorts its keys. */
module Bytes {

  type byte = x: int | 0 <= x < 256
  type Bytes = seq<byte>

  const U32: nat := 0x1_0000_0000
  const U64: nat := 0x1_0000_0000_0000_0000

  // ---------- little-endian integers ----------

  /** The n low-order bytes of v, least significant first. */
  function Le(v: nat, n: nat): (s: Bytes)
    ensures |s| == n
  {
    if n == 0 then [] else [v % 256] + Le(v / 256, n - 1)
  }

  function FromLe(s: Bytes): nat
  {
    if s == [] then 0 else s[0] + 256 * FromLe(s[1..])
  }

  function Pow256(n: nat): (p: nat)
    ensures p > 0
  {
    if n == 0 then 1 else 256 * Pow256(n - 1)
  }

  lemma {:induction false} LeRoundTrip(v: nat, n: nat)
    requires v < Pow256(n)
    ensures FromLe(Le(v, n)) == v
  {
    if n > 0 {
      LeRoundTrip(v / 256, n - 1);
      assert Le(v, n)[1..] == Le(v / 256, n - 1);
    }
  }

  lemma {:induction false} FromLeBound(s: Bytes)
    ensures FromLe(s) < Pow256(|s|)
  {
    if s != [] {
      FromLeBound(s[1..]);
    }
  }

  lemma Le32(v: nat)
    requires v < U32
    ensures FromLe(Le(v, 4)) == v
  {
    assert Pow256(2) == 0x1_0000;
    assert Pow256(4) == U32;
    LeRoundTrip(v, 4);
  }

  lemma Le64(v: nat)
    requires v < U64
    ensures FromLe(Le(v, 8)) == v
  {
    assert Pow256(2) == 0x1_0000;
    assert Pow256(4) == U32;
    assert Pow256(6) == 0x1_0000 * U32;
    assert Pow256(8) == U64;
    LeRoundTrip(v, 8);
  }

  lemma {:induction false} FromLeInjective(s: Bytes, t: Bytes)
    requires |s| == |t| && FromLe(s) == FromLe(t)
    ensures s == t
  {
    if s != [] {
      assert s[0] == t[0] && FromLe(s[1..]) == FromLe(t[1..]);
      FromLeInjective(s[1..], t[1..]);
      assert s == [s[0]] + s[1..] && t == [t[0]] + t[1..];
    }
  }

  lemma FromLeBounds(s: Bytes)
    ensures |s| == 4 ==> FromLe(s) < U32
    ensures |s| == 8 ==> FromLe(s) < U64
  {
    FromLeBound(s);
    assert Pow256(2) == 0x1_0000;
    assert Pow256(4) == U32;
    assert Pow256(6) == 0x1_0000 * U32;
    assert Pow256(8) == U64;
  }

  /** Four bytes as a number, written out. */
  lemma FromLe4(s: Bytes)
    requires |s| == 4
    ensures FromLe(s) == s[0] as nat + 0x100 * s[1] as nat + 0x1_0000 * s[2] as nat + 0x100_0000 * s[3] as nat
  {
    assert s[1..][1..] == s[2..] && s[2..][1..] == s[3..] && s[3..][1..] == [];
    assert FromLe(s[3..]) == s[3];
    assert FromLe(s[2..]) == s[2] as nat + 0x100 * s[3] as nat;
    assert FromLe(s[1..]) == s[1] as nat + 0x100 * s[2] as nat + 0x1_0000 * s[3] as nat;
  }

  /** Eight bytes as a number are two numbers of four. */
  lemma FromLe8(s: Bytes)
    requires |s| == 8
    ensures FromLe(s) == FromLe(s[..4]) + U32 * FromLe(s[4..])
  {
    assert s[1..][1..] == s[2..] && s[2..][1..] == s[3..] && s[3..][1..] == s[4..];
    assert FromLe(s[3..]) == s[3] as nat + 0x100 * FromLe(s[4..]);
    assert FromLe(s[2..]) == s[2] as nat + 0x100 * FromLe(s[3..]);
    assert FromLe(s[1..]) == s[1] as nat + 0x100 * FromLe(s[2..]);
    FromLe4(s[..4]);
  }

  /** The eight bytes of a number. */
  lemma LeIs(v: nat, s: Bytes)
    requires |s| == 8 && v < U64 && FromLe(s) == v
    ensures Le(v, 8) == s
  {
    hide Le, FromLe;
    Le64(v);
    FromLeInjective(Le(v, 8), s);
  }

  lemma MultiplesGrow(i: nat, j: nat, d: nat)
    requires i < j
    ensures i * d + d <= j * d
  {
    assert (i + 1) * d <= j * d;
    assert (i + 1) * d == i * d + d;
  }

  /** A division with the remainder known. */
  lemma DivideExactly(q: nat, r: nat, d: nat)
    requires r < d
    ensures (q * d + r) / d == q
  {
    var v := q * d + r;
    var a := v / d;
    assert v == a * d + v % d;
    if a < q {
      MultiplesGrow(a, q, d);
    } else if a > q {
      MultiplesGrow(q, a, d);
    }
  }

  // ---------- streams ----------

  /** A read of up to n bytes from a stream: fewer at the end of the file. */
  function Take(content: Bytes, at: nat, n: nat): (taken: Bytes)
    ensures |taken| <= n
  {
    if at >= |content| then []
    else if at + n <= |content| then content[at..at + n]
    else content[at..]
  }

  // ---------- damage ----------

  /** The two strings differ, but only inside the n bytes from position `at` on, at most four. */
  ghost predicate Burst(s: Bytes, t: Bytes, at: nat, n: nat)
  {
    n <= 4 && at + n <= |s| == |t| && s != t && t[..at] == s[..at] && t[at + n..] == s[at + n..]
  }

  /** What is before the difference, the two versions, and what is behind it. */
  lemma BurstParts(s: Bytes, t: Bytes, at: nat, n: nat) returns (before: Bytes, u: Bytes, v: Bytes, after: Bytes)
    requires Burst(s, t, at, n)
    ensures s == before + u + after && t == before + v + after && |u| == |v| <= 4 && u != v
  {
    before, u, v, after := s[..at], s[at..at + n], t[at..at + n], s[at + n..];
    assert s == before + u + after;
    assert t == t[..at] + v + t[at + n..];
  }

  /** A part of the strings is the same in both, or differs in a burst of its own. */
  lemma BurstWithin(s: Bytes, t: Bytes, at: nat, n: nat, from: nat, to: nat)
    requires Burst(s, t, at, n) && from <= to <= |s|
    ensures at + n <= from || to <= at ==> t[from..to] == s[from..to]
    ensures t[from..to] == s[from..to] || exists a: nat, m: nat :: Burst(s[from..to], t[from..to], a, m)
  {
    var x, y := s[from..to], t[from..to];
    forall i | 0 <= i < to - from && !(at <= from + i < at + n)
      ensures y[i] == x[i]
    {
      var j := from + i;
      assert if j < at then t[..at][j] == s[..at][j] else t[at + n..][j - (at + n)] == s[at + n..][j - (at + n)];
    }
    if at < to && from < at + n {
      var a := if at < from then 0 else at - from;
      var b := if at + n > to then to - from else at + n - from;
      assert y[..a] == x[..a] && y[b..] == x[b..];
      assert x != y ==> Burst(x, y, a, b - a);
    } else {
      assert x == y;
    }
  }

  // ---------- key order ----------

  /** `std::string` order: lexicographic on unsigned bytes, a proper prefix first. */
  predicate Less(a: Bytes, b: Bytes)
  {
    b != [] && (a == [] || a[0] < b[0] || (a[0] == b[0] && Less(a[1..], b[1..])))
  }

  predicate LessEq(a: Bytes, b: Bytes)
  {
    a == b || Less(a, b)
  }

  /** b goes on from the first n bytes of a, with a larger byte or where a has none left. */
  ghost predicate GoesOn(b: Bytes, a: Bytes, n: nat)
  {
    n <= |a| && n < |b| && a[..n] == b[..n] && (n == |a| || a[n] < b[n])
  }

  /** b comes after a in the order of unsigned bytes. */
  ghost predicate Above(b: Bytes, a: Bytes)
  {
    exists n :: GoesOn(b, a, n)
  }

  /** Which way the key order runs. */
  lemma {:induction false} LessMeans(a: Bytes, b: Bytes)
    ensures Less(a, b) <==> Above(b, a)
  {
    if a == [] || b == [] {
      assert b != [] ==> GoesOn(b, a, 0);
    } else {
      LessMeans(a[1..], b[1..]);
      assert a[0] < b[0] ==> GoesOn(b, a, 0);
      if n: nat :| a[0] == b[0] && GoesOn(b[1..], a[1..], n) {
        assert a[..n + 1] == [a[0]] + a[1..][..n] && b[..n + 1] == [b[0]] + b[1..][..n];
        assert GoesOn(b, a, n + 1);
      }
      if n: nat :| GoesOn(b, a, n) && n > 0 {
        assert a[0] == a[..n][0] == b[..n][0] == b[0];
        assert a[1..][..n - 1] == a[..n][1..] && b[1..][..n - 1] == b[..n][1..];
        assert GoesOn(b[1..], a[1..], n - 1);
      }
    }
  }

  lemma {:induction false} LessIrreflexive(a: Bytes)
    ensures !Less(a, a)
  {
    if a != [] {
      LessIrreflexive(a[1..]);
    }
  }

  lemma {:induction false} LessTransitive(a: Bytes, b: Bytes, c: Bytes)
    requires Less(a, b) && Less(b, c)
    ensures Less(a, c)
  {
    if a != [] && a[0] == b[0] && b[0] == c[0] {
      LessTransitive(a[1..], b[1..], c[1..]);
    }
  }

  lemma {:induction false} LessTotal(a: Bytes, b: Bytes)
    ensures a == b || Less(a, b) || Less(b, a)
  {
    if a != [] && b != [] && a[0] == b[0] {
      LessTotal(a[1..], b[1..]);
      assert a == [a[0]] + a[1..] && b == [b[0]] + b[1..];
    }
  }

  lemma LessAsymmetric(a: Bytes, b: Bytes)
    requires Less(a, b)
    ensures !LessEq(b, a)
  {
    LessIrreflexive(a);
    if Less(b, a) {
      LessTransitive(a, b, a);
    }
  }

  /** Not to be at most a is to come after it. */
  lemma NotLessEqMeans(b: Bytes, a: Bytes)
    ensures !LessEq(b, a) <==> Above(b, a)
  {
    hide Less, Above;
    LessMeans(a, b);
    LessTotal(a, b);
    if Less(a, b) {
      LessAsymmetric(a, b);
    }
  }
}
