/** The Bloom filter: double hashing over a bit array, and its serialized form. */
module Blooms {
  import opened Bytes
  import opened Words
  import opened Entries
  import opened Records

  // ---------- single bits of a byte ----------

  function Bit(b: nat, k: nat): bool
  {
    if k == 0 then b % 2 == 1 else Bit(b / 2, k - 1)
  }

  /** b | (1 << k) */
  function SetBit(b: nat, k: nat): nat
  {
    if k == 0 then (if b % 2 == 1 then b else b + 1) else 2 * SetBit(b / 2, k - 1) + b % 2
  }

  lemma {:induction false} SetBitBound(b: nat, k: nat, n: nat)
    requires b < Pow2(n) && k < n
    ensures SetBit(b, k) < Pow2(n)
  {
    var half := Pow2(n - 1);
    assert Pow2(n) == 2 * half;
    if k == 0 {
      LowBitBound(b, half);
    } else {
      SetBitBound(b / 2, k - 1, n - 1);
      DoubledBound(SetBit(b / 2, k - 1), b % 2, half);
    }
  }

  lemma LowBitBound(b: nat, half: nat)
    requires b < 2 * half
    ensures (if b % 2 == 1 then b else b + 1) < 2 * half
  {
  }

  lemma DoubledBound(a: nat, bit: nat, half: nat)
    requires a < half && bit < 2
    ensures 2 * a + bit < 2 * half
  {
  }

  lemma {:induction false} SetBitBits(b: nat, k: nat, j: nat)
    ensures Bit(SetBit(b, k), j) == (j == k || Bit(b, j))
  {
    if k > 0 && j > 0 {
      SetBitBits(b / 2, k - 1, j - 1);
    }
  }

  /** Bit k as a mask picks it out. */
  lemma {:induction false} BitMeans(b: nat, k: nat)
    ensures Bit(b, k) <==> b / Pow2(k) % 2 == 1
  {
    if k > 0 {
      BitMeans(b / 2, k - 1);
      DivideTwice(b, Pow2(k - 1));
    }
  }

  lemma DivideTwice(b: nat, d: nat)
    requires d > 0
    ensures b / (2 * d) == b / 2 / d
  {
    var q, r := b / 2 / d, b / 2 % d;
    assert b / 2 == q * d + r;
    assert b == q * (2 * d) + (2 * r + b % 2);
    DivideExactly(q, 2 * r + b % 2, 2 * d);
  }

  // ---------- hashing ----------

  function XorNumber(a: nat, b: nat): (x: nat)
    ensures x < U32
  {
    var r := Xor(BitsOf(a, 32), BitsOf(b, 32));
    RegisterNumberBound(r);
    Number(r)
  }

  function FnvStep(hash: nat, c: byte): (h: nat)
    ensures h < U32
  {
    XorNumber(hash, c) * 16777619 % U32
  }

  function Fnv(hash: nat, key: Key): (h: nat)
    requires hash < U32
    ensures h < U32
    decreases key
  {
    if key == [] then hash else Fnv(FnvStep(hash, key[0]), key[1..])
  }

  /** FNV-1a. */
  function Hash1(key: Key): (h: nat)
    ensures h < U32
  {
    Fnv(2166136261, key)
  }

  function JenkinsStep(hash: nat, c: byte): (h: nat)
    ensures h < U32
  {
    var h1 := (hash + c) % U32;
    var h2 := (h1 + h1 * 1024) % U32;
    XorNumber(h2, h2 / 64)
  }

  function Jenkins(hash: nat, key: Key): (h: nat)
    requires hash < U32
    ensures h < U32
    decreases key
  {
    if key == [] then hash else Jenkins(JenkinsStep(hash, key[0]), key[1..])
  }

  function JenkinsEnd(hash: nat): (h: nat)
    ensures 0 < h < U32
  {
    var h1 := (hash + hash * 8) % U32;
    var h2 := XorNumber(h1, h1 / 2048);
    var h3 := (h2 + h2 * 32768) % U32;
    if h3 == 0 then 1 else h3
  }

  /** Jenkins one-at-a-time, never zero. */
  function Hash2(key: Key): (h: nat)
    ensures 0 < h < U32
  {
    JenkinsEnd(Jenkins(0, key))
  }

  // ---------- values to compare with ----------

  /** a ^ b on the n lowest bits. */
  function XorBits(a: nat, b: nat, n: nat): nat
  {
    if n == 0 then 0 else (if a % 2 != b % 2 then 1 else 0) + 2 * XorBits(a / 2, b / 2, n - 1)
  }

  ghost predicate IsXor(s: seq<bool>, a: nat, b: nat)
  {
    forall i :: 0 <= i < |s| ==> s[i] == (BitsOf(a, |s|)[i] != BitsOf(b, |s|)[i])
  }

  lemma IsXorTail(s: seq<bool>, a: nat, b: nat)
    requires s != [] && IsXor(s, a, b)
    ensures s[0] == (a % 2 != b % 2) && IsXor(s[1..], a / 2, b / 2)
  {
    var n := |s|;
    forall i | 0 <= i < n - 1
      ensures s[1..][i] == (BitsOf(a / 2, n - 1)[i] != BitsOf(b / 2, n - 1)[i])
    {
      assert s[i + 1] == (BitsOf(a, n)[i + 1] != BitsOf(b, n)[i + 1]);
    }
  }

  lemma {:induction false} XorValue(s: seq<bool>, a: nat, b: nat)
    requires IsXor(s, a, b)
    ensures Number(s) == XorBits(a, b, |s|)
  {
    if s != [] {
      IsXorTail(s, a, b);
      XorValue(s[1..], a / 2, b / 2);
    }
  }

  lemma XorNumberValue(a: nat, b: nat)
    ensures XorNumber(a, b) == XorBits(a, b, 32)
  {
    XorValue(Xor(BitsOf(a, 32), BitsOf(b, 32)), a, b);
  }

  lemma {:induction false} XorWithNothing(a: nat, n: nat)
    requires a < Pow2(n)
    ensures XorBits(a, 0, n) == a
  {
    if n > 0 {
      XorWithNothing(a / 2, n - 1);
    }
  }

  lemma Powers()
    ensures Pow2(21) == 0x200000 && Pow2(23) == 0x800000 && Pow2(25) == 0x2000000
  {
    PowersOfTwo();
    assert Pow2(10) == 0x400;
    assert Pow2(13) == 0x2000;
    assert Pow2(17) == 0x20000;
  }

  lemma FirstXor()
    ensures XorBits(0x811C9DC5, 0x61, 32) == 0x811C9DA4
  {
    Powers();
    XorWithNothing(0x102393B, 25);
    assert XorBits(0x2047277, 0x1, 26) == 0x2047276;
    assert XorBits(0x408E4EE, 0x3, 27) == 0x408E4ED;
    assert XorBits(0x811C9DC, 0x6, 28) == 0x811C9DA;
    assert XorBits(0x102393B8, 0xC, 29) == 0x102393B4;
    assert XorBits(0x20472771, 0x18, 30) == 0x20472769;
    assert XorBits(0x408E4EE2, 0x30, 31) == 0x408E4ED2;
    assert XorBits(0x811C9DC5, 0x61, 32) == 0x811C9DA4;
  }

  lemma SecondXor()
    ensures XorBits(0x18461, 0x611, 32) == 0x18270
  {
    Powers();
    XorWithNothing(0x30, 21);
    assert XorBits(0x61, 0x1, 22) == 0x60;
    assert XorBits(0xC2, 0x3, 23) == 0xC1;
    assert XorBits(0x184, 0x6, 24) == 0x182;
    assert XorBits(0x308, 0xC, 25) == 0x304;
    assert XorBits(0x611, 0x18, 26) == 0x609;
    assert XorBits(0xC23, 0x30, 27) == 0xC13;
    assert XorBits(0x1846, 0x61, 28) == 0x1827;
    assert XorBits(0x308C, 0xC2, 29) == 0x304E;
    assert XorBits(0x6118, 0x184, 30) == 0x609C;
    assert XorBits(0xC230, 0x308, 31) == 0xC138;
    assert XorBits(0x18461, 0x611, 32) == 0x18270;
  }

  lemma ThirdXor()
    ensures XorBits(0xD95F0, 0x1B2, 32) == 0xD9442
  {
    Powers();
    XorWithNothing(0x6CA, 23);
    assert XorBits(0xD95, 0x1, 24) == 0xD94;
    assert XorBits(0x1B2B, 0x3, 25) == 0x1B28;
    assert XorBits(0x3657, 0x6, 26) == 0x3651;
    assert XorBits(0x6CAF, 0xD, 27) == 0x6CA2;
    assert XorBits(0xD95F, 0x1B, 28) == 0xD944;
    assert XorBits(0x1B2BE, 0x36, 29) == 0x1B288;
    assert XorBits(0x3657C, 0x6C, 30) == 0x36510;
    assert XorBits(0x6CAF8, 0xD9, 31) == 0x6CA21;
    assert XorBits(0xD95F0, 0x1B2, 32) == 0xD9442;
  }

  /** The hashes of the empty string and of "a". */
  lemma HashesOfA()
    ensures Hash1([]) == 0x811C9DC5 && Hash1([97]) == 0xE40C292C
    ensures Hash2([]) == 1 && Hash2([97]) == 0xCA2E9442
  {
    hide XorNumber, XorBits;
    XorNumberValue(0x811C9DC5, 97);
    FirstXor();
    assert FnvStep(0x811C9DC5, 97) == 0xE40C292C;
    XorNumberValue(0x18461, 0x611);
    SecondXor();
    assert JenkinsStep(0, 97) == 0x18270;
    XorNumberValue(0xD95F0, 0x1B2);
    ThirdXor();
    assert JenkinsEnd(0x18270) == 0xCA2E9442;
    XorNumberValue(0, 0);
    NothingXor();
    assert JenkinsEnd(0) == 1;
    assert [97 as byte][1..] == [];
  }

  lemma NothingXor()
    ensures XorBits(0, 0, 32) == 0
  {
    XorWithNothing(0, 32);
  }

  method ComputeHash1(key: Key) returns (hash: nat)
    ensures hash == Hash1(key)
  {
    hide XorNumber;
    hash := 2166136261;
    for i := 0 to |key|
      invariant hash < U32 && Fnv(hash, key[i..]) == Hash1(key)
    {
      assert key[i..][1..] == key[i + 1..];
      hash := XorNumber(hash, key[i]);
      hash := hash * 16777619 % U32;
    }
  }

  method ComputeHash2(key: Key) returns (hash: nat)
    ensures hash == Hash2(key)
  {
    hide XorNumber;
    hash := 0;
    for i := 0 to |key|
      invariant hash < U32 && Jenkins(hash, key[i..]) == Jenkins(0, key)
    {
      assert key[i..][1..] == key[i + 1..];
      hash := (hash + key[i]) % U32;
      hash := (hash + hash * 1024) % U32;
      hash := XorNumber(hash, hash / 64);
    }
    hash := (hash + hash * 8) % U32;
    hash := XorNumber(hash, hash / 2048);
    hash := (hash + hash * 32768) % U32;
    if hash == 0 {
      hash := 1;
    }
  }

  /** The i-th probe of a key, in the 64-bit arithmetic of the engine. */
  function Probe(h1: nat, h2: nat, i: nat, bitCount: nat): (j: nat)
    requires bitCount > 0
    ensures j < bitCount
  {
    (h1 + i * h2) % U64 % bitCount
  }

  /** The 64-bit sum never wraps: every probe is the mathematical h1 + i * h2. */
  lemma ProbeNeverWraps(h1: nat, h2: nat, i: nat)
    requires h1 < U32 && h2 < U32 && i < U32
    ensures h1 + i * h2 < U64
  {
    var top := U32 - 1;
    ProductBound(i, h2, top);
    assert top * top + top < U64;
  }

  lemma ProductBound(a: nat, b: nat, top: nat)
    requires a <= top && b <= top
    ensures a * b <= top * top
  {
    assert a * b <= a * top;
    assert a * top <= top * top;
  }

  // ---------- the bit array ----------

  predicate BitSet(bits: Bytes, j: nat)
    requires j < 8 * |bits|
  {
    Bit(bits[j / 8], j % 8)
  }

  function WithBit(bits: Bytes, j: nat): (r: Bytes)
    requires j < 8 * |bits|
    ensures |r| == |bits|
  {
    assert Pow2(8) == 256 by {
      PowersOfTwo();
    }
    SetBitBound(bits[j / 8], j % 8, 8);
    bits[j / 8 := SetBit(bits[j / 8], j % 8)]
  }

  /** The bit array with the first n probes set. */
  function WithProbes(bits: Bytes, h1: nat, h2: nat, n: nat): (r: Bytes)
    requires bits != []
    ensures |r| == |bits|
  {
    if n == 0 then bits else
      WithBit(WithProbes(bits, h1, h2, n - 1), Probe(h1, h2, n - 1, 8 * |bits|))
  }

  function AddKey(bits: Bytes, hashes: nat, key: Key): (r: Bytes)
    ensures |r| == |bits|
  {
    if bits == [] then bits else WithProbes(bits, Hash1(key), Hash2(key), hashes)
  }

  function AddKeys(bits: Bytes, hashes: nat, keys: seq<Key>): (r: Bytes)
    ensures |r| == |bits|
  {
    if keys == [] then bits else
      AddKey(AddKeys(bits, hashes, keys[..|keys| - 1]), hashes, keys[|keys| - 1])
  }

  ghost predicate MayContain(bits: Bytes, hashes: nat, key: Key)
  {
    bits == [] || forall i :: 0 <= i < hashes ==> BitSet(bits, Probe(Hash1(key), Hash2(key), i, 8 * |bits|))
  }

  lemma WithBitKeeps(bits: Bytes, j: nat, k: nat)
    requires j < 8 * |bits| && k < 8 * |bits|
    ensures BitSet(WithBit(bits, j), k) == (k == j || BitSet(bits, k))
  {
    if k / 8 == j / 8 {
      SetBitBits(bits[j / 8], j % 8, k % 8);
    }
  }

  lemma {:induction false} WithProbesBits(bits: Bytes, h1: nat, h2: nat, n: nat, k: nat)
    requires bits != [] && k < 8 * |bits|
    ensures BitSet(WithProbes(bits, h1, h2, n), k)
         == (BitSet(bits, k) || exists i :: 0 <= i < n && Probe(h1, h2, i, 8 * |bits|) == k)
  {
    if n > 0 {
      hide Probe, BitSet, WithBit;
      var before := WithProbes(bits, h1, h2, n - 1);
      WithProbesBits(bits, h1, h2, n - 1, k);
      WithBitKeeps(before, Probe(h1, h2, n - 1, 8 * |bits|), k);
      if Probe(h1, h2, n - 1, 8 * |bits|) == k {
        assert exists i :: 0 <= i < n && Probe(h1, h2, i, 8 * |bits|) == k;
      }
    }
  }

  /** Round i of a key ends up at bit j. */
  ghost predicate Probed(key: Key, i: nat, bitCount: nat, j: nat)
    requires bitCount > 0
  {
    (Hash1(key) + i * Hash2(key)) % bitCount == j
  }

  /** Adding a key sets the bits at the first hash plus multiples of the second, modulo the number
      of bits, and no others. */
  lemma AddKeyBits(bits: Bytes, hashes: nat, key: Key, j: nat)
    requires bits != [] && hashes <= U32 && j < 8 * |bits|
    ensures BitSet(AddKey(bits, hashes, key), j) <==>
      BitSet(bits, j) || exists i :: 0 <= i < hashes && Probed(key, i, 8 * |bits|, j)
    ensures BitSet(bits, j) <==> bits[j / 8] / Pow2(j % 8) % 2 == 1
  {
    hide Hash1, Hash2, WithProbes, Pow2, Bit;
    var h1, h2, bitCount := Hash1(key), Hash2(key), 8 * |bits|;
    WithProbesBits(bits, h1, h2, hashes, j);
    BitMeans(bits[j / 8], j % 8);
    forall i | 0 <= i < hashes
      ensures Probe(h1, h2, i, bitCount) == j <==> Probed(key, i, bitCount, j)
    {
      ProbeNeverWraps(h1, h2, i);
    }
  }

  lemma AddKeyKeeps(bits: Bytes, hashes: nat, key: Key, other: Key)
    requires MayContain(bits, hashes, other) || key == other
    ensures MayContain(AddKey(bits, hashes, key), hashes, other)
  {
    hide Hash1, Hash2, BitSet, Probe, WithProbes;
    if bits != [] {
      var added := AddKey(bits, hashes, key);
      forall i | 0 <= i < hashes
        ensures BitSet(added, Probe(Hash1(other), Hash2(other), i, 8 * |added|))
      {
        WithProbesBits(bits, Hash1(key), Hash2(key), hashes, Probe(Hash1(other), Hash2(other), i, 8 * |bits|));
      }
    }
  }

  lemma {:induction false} SetBitAgain(b: nat, k: nat)
    requires Bit(b, k)
    ensures SetBit(b, k) == b
  {
    if k > 0 {
      SetBitAgain(b / 2, k - 1);
    }
  }

  lemma {:induction false} NothingToSet(bits: Bytes, h1: nat, h2: nat, n: nat)
    requires bits != [] && forall i :: 0 <= i < n ==> BitSet(bits, Probe(h1, h2, i, 8 * |bits|))
    ensures WithProbes(bits, h1, h2, n) == bits
  {
    hide Probe;
    if n > 0 {
      NothingToSet(bits, h1, h2, n - 1);
      var j := Probe(h1, h2, n - 1, 8 * |bits|);
      SetBitAgain(bits[j / 8], j % 8);
    }
  }

  /** A key may be contained exactly if adding it changes nothing. */
  lemma MayContainIff(bits: Bytes, hashes: nat, key: Key)
    ensures MayContain(bits, hashes, key) <==> AddKey(bits, hashes, key) == bits
  {
    hide Hash1, Hash2, Probe, BitSet, WithProbes;
    if bits != [] {
      if MayContain(bits, hashes, key) {
        NothingToSet(bits, Hash1(key), Hash2(key), hashes);
      }
      if AddKey(bits, hashes, key) == bits {
        forall i | 0 <= i < hashes
          ensures BitSet(bits, Probe(Hash1(key), Hash2(key), i, 8 * |bits|))
        {
          WithProbesBits(bits, Hash1(key), Hash2(key), hashes, Probe(Hash1(key), Hash2(key), i, 8 * |bits|));
        }
      }
    }
  }

  /** No false negatives, for any sequence of additions to any bit array. */
  lemma {:induction false} NoFalseNegatives(bits: Bytes, hashes: nat, keys: seq<Key>, key: Key)
    requires key in keys
    ensures MayContain(AddKeys(bits, hashes, keys), hashes, key)
  {
    var n := |keys| - 1;
    if keys[n] != key {
      NoFalseNegatives(bits, hashes, keys[..n], key);
    }
    AddKeyKeeps(AddKeys(bits, hashes, keys[..n]), hashes, keys[n], key);
  }

  // ---------- serialized form ----------

  function BloomRaw(bits: Bytes, hashes: nat): Bytes
  {
    Le(hashes, 4) + Le(|bits|, 4) + bits
  }

  datatype Parsed = Filter(bits: Bytes, hashes: nat) | Invalid

  /** The length check adds in 32 bits; a copy that would run past the buffer is refused. */
  function ParseBloom(data: Bytes): Parsed
  {
    if |data| < 8 then Invalid else
      var byteCount := FromLe(data[4..8]);
      if |data| < (8 + byteCount) % U32 || |data| < 8 + byteCount then Invalid
      else Filter(data[8..8 + byteCount], FromLe(data[..4]))
  }

  lemma BloomRoundTrip(bits: Bytes, hashes: nat)
    requires |bits| < U32 && hashes < U32
    ensures ParseBloom(BloomRaw(bits, hashes)) == Filter(bits, hashes)
  {
    hide Le;
    var data := BloomRaw(bits, hashes);
    assert data[..4] == Le(hashes, 4);
    assert data[4..8] == Le(|bits|, 4);
    Le32(hashes);
    Le32(|bits|);
  }

  /** The bytes of a filter: the number of hashes, the number of bytes, the bytes. */
  lemma BloomLayout(bits: Bytes, hashes: nat)
    requires |bits| < U32 && hashes < U32
    ensures var b := BloomRaw(bits, hashes);
            |b| == 8 + |bits| && FromLe(b[..4]) == hashes && FromLe(b[4..8]) == |bits| && b[8..] == bits
  {
    hide Le, FromLe;
    var b := BloomRaw(bits, hashes);
    assert b[..4] == Le(hashes, 4) && b[4..8] == Le(|bits|, 4);
    Le32(hashes);
    Le32(|bits|);
  }

  /** Size of the bit array for an expected number of keys. */
  function ByteCount(keys: nat, bitsPerKey: nat): (n: nat)
    ensures n >= 8
  {
    var total := (if keys == 0 then 64 else keys) * bitsPerKey;
    ((if total < 64 then 64 else total) + 7) / 8
  }

  /** The least number of bytes that has so many bits per key, and 64 bits at least. */
  lemma ByteCountLeast(keys: nat, bitsPerKey: nat, n: nat)
    ensures n >= ByteCount(keys, bitsPerKey) <==> 8 * n >= 64 && 8 * n >= (if keys == 0 then 64 else keys) * bitsPerKey
  {
    var total := (if keys == 0 then 64 else keys) * bitsPerKey;
    LeastBytes(if total < 64 then 64 else total, n);
  }

  lemma LeastBytes(bits: nat, n: nat)
    ensures n >= (bits + 7) / 8 <==> 8 * n >= bits
  {
  }

  function EmptyBits(n: nat): (bits: Bytes)
    ensures |bits| == n
  {
    seq(n, _ => 0)
  }

  method PossiblyContains(bits: Bytes, hashes: nat, key: Key) returns (possible: bool)
    ensures possible == MayContain(bits, hashes, key) == (AddKey(bits, hashes, key) == bits)
  {
    hide Hash1, Hash2, Probe, BitSet, WithProbes;
    MayContainIff(bits, hashes, key);
    if bits == [] {
      return true;
    }
    var bitCount := 8 * |bits|;
    var h1 := ComputeHash1(key);
    var h2 := ComputeHash2(key);
    for i := 0 to hashes
      invariant forall n :: 0 <= n < i ==> BitSet(bits, Probe(h1, h2, n, bitCount))
    {
      if !BitSet(bits, Probe(h1, h2, i, bitCount)) {
        return false;
      }
    }
    return true;
  }

  class BloomFilter {
    var bits: Bytes
    var hashes: nat

    constructor (keys: nat, bitsPerKey: nat, hashes: nat)
      ensures bits == EmptyBits(ByteCount(keys, bitsPerKey))
      ensures this.hashes == hashes % U32
    {
      this.hashes := hashes % U32;
      var capacity := keys;
      if capacity == 0 {
        capacity := 64;
      }
      var total := capacity * bitsPerKey;
      if total < 64 {
        total := 64;
      }
      bits := seq((total + 7) / 8, _ => 0);
    }

    method Add(key: Key)
      modifies this
      ensures hashes == old(hashes) && bits == AddKey(old(bits), hashes, key)
    {
      hide Hash1, Hash2, Probe, WithBit;
      if bits == [] {
        return;
      }
      var bitCount := 8 * |bits|;
      var h1 := ComputeHash1(key);
      var h2 := ComputeHash2(key);
      for i := 0 to hashes
        invariant hashes == old(hashes) && |bits| == |old(bits)|
        invariant bits == WithProbes(old(bits), h1, h2, i)
      {
        var j := Probe(h1, h2, i, bitCount);
        bits := WithBit(bits, j);
      }
    }

    method Serialize() returns (data: Bytes)
      requires |bits| < U32 && hashes < U32
      ensures data == BloomRaw(bits, hashes)
    {
      var buffer := new byte[8 + |bits|];
      EncodeUint32LE(hashes, buffer, 0);
      assert buffer[..4] == Le(hashes, 4);
      EncodeUint32LE(|bits|, buffer, 4);
      assert buffer[..8] == Le(hashes, 4) + Le(|bits|, 4);
      CopyBytes(bits, buffer, 8);
      assert buffer[..] == Le(hashes, 4) + Le(|bits|, 4) + bits + [];
      data := buffer[..];
    }
  }
}
