/** Size arithmetic of the userland heap: request padding, bin indices and the
    bit ranges covered by each tree bin, for a 32-bit size_t. */
module SizeClass {

  const SIZE_T_RANGE: nat := 0x1_0000_0000
  const MIN_CHUNK_SIZE: nat := 16
  const MIN_REQUEST: nat := 11
  const MAX_SMALL_REQUEST: nat := 244
  const MAX_REQUEST: nat := 0xFFFF_FFC0
  const MIN_LARGE_SIZE: nat := 256
  const TOP_FOOT_SIZE: nat := 40
  const NTREEBINS: nat := 32
  const NSMALLBINS: nat := 32

  function Pow2(n: nat): (p: nat)
    ensures p > 0
  {
    if n == 0 then 1 else 2 * Pow2(n - 1)
  }

  lemma {:induction false} Pow2Add(a: nat, b: nat)
    ensures Pow2(a + b) == Pow2(a) * Pow2(b)
  {
    if a > 0 {
      Pow2Add(a - 1, b);
      assert a + b - 1 == a - 1 + b;
      assert Pow2(a) * Pow2(b) == 2 * (Pow2(a - 1) * Pow2(b));
    }
  }

  lemma {:induction false} Pow2Mono(a: nat, b: nat)
    requires a <= b
    ensures Pow2(a) <= Pow2(b)
  {
    if a < b { Pow2Mono(a, b - 1); }
  }

  /** Position of the highest set bit (31 - clz). */
  function Log2(x: nat): (k: nat)
    requires x > 0
    ensures Pow2(k) <= x < Pow2(k + 1)
  {
    if x == 1 then 0 else 1 + Log2(x / 2)
  }

  /** Unsigned 32-bit subtraction. */
  function Sub32(a: nat, b: nat): (r: nat)
    requires a < SIZE_T_RANGE && b < SIZE_T_RANGE
    ensures r < SIZE_T_RANGE
    ensures r == if b <= a then a - b else SIZE_T_RANGE + a - b
  {
    (a + SIZE_T_RANGE - b) % SIZE_T_RANGE
  }

  /** Left shift of a 32-bit word. */
  function Shl32(a: nat, n: nat): (r: nat)
    ensures r < SIZE_T_RANGE
  {
    a * Pow2(n) % SIZE_T_RANGE
  }

  function PadRequest(req: nat): nat
  {
    (req + 4 + 7) / 8 * 8
  }

  /** Padded chunk size for a request. */
  function Request2Size(req: nat): (nb: nat)
    ensures nb % 8 == 0 && nb >= MIN_CHUNK_SIZE && nb >= req + 4
    ensures nb == MIN_CHUNK_SIZE || nb < req + 12
    ensures req <= MAX_SMALL_REQUEST <==> nb < MIN_LARGE_SIZE
    ensures req < MAX_REQUEST ==> nb < SIZE_T_RANGE
  {
    if req < MIN_REQUEST then MIN_CHUNK_SIZE else PadRequest(req)
  }

  predicate IsSmall(s: nat) { s / 8 < NSMALLBINS }

  function TreeIndex(s: nat): nat
  {
    var x := s / 256;
    if x == 0 then 0
    else if x > 0xFFFF then NTREEBINS - 1
    else
      var k := Log2(x);
      2 * k + (s / Pow2(k + 7)) % 2
  }

  function MinSizeForTreeIndex(i: nat): nat
  {
    Pow2(i / 2 + 8) + (i % 2) * Pow2(i / 2 + 7)
  }

  function LeftShiftForTreeIndex(i: nat): nat
    requires i < NTREEBINS
  {
    if i == NTREEBINS - 1 then 0 else 31 - (i / 2 + 6)
  }

  /** Lower end and width of the bit range that the trie of bin i resolves. */
  function BinLo(i: nat): nat
  {
    if i == NTREEBINS - 1 then 0 else MinSizeForTreeIndex(i)
  }

  function BinBits(i: nat): nat
  {
    if i == NTREEBINS - 1 then 32 else i / 2 + 7
  }

  lemma Pow2Unfold8(k: nat)
    ensures Pow2(k + 8) == 256 * Pow2(k) && Pow2(k + 7) == 128 * Pow2(k)
  {
    Pow2Add(k, 8);
    Pow2Add(k, 7);
    assert Pow2(3) == 8;
    assert Pow2(7) == 128 && Pow2(8) == 256;
  }

  lemma Pow2Values()
    ensures Pow2(1) == 2 && Pow2(7) == 128 && Pow2(8) == 256 && Pow2(15) == 0x8000 && Pow2(16) == 0x1_0000
    ensures Pow2(22) == 0x40_0000 && Pow2(23) == 0x80_0000 && Pow2(24) == 0x100_0000
    ensures Pow2(31) == 0x8000_0000 && Pow2(32) == SIZE_T_RANGE
  {
    assert Pow2(4) == 16;
    assert Pow2(8) == 256;
    Pow2Unfold8(8);
    Pow2Unfold8(15);
    Pow2Unfold8(16);
    Pow2Unfold8(24);
  }

  /** The quotient bit that picks the half of a power of two. */
  lemma HalfBit(s: nat, p: nat)
    requires p > 0 && 2 * p <= s < 4 * p
    ensures (s / p) % 2 == 0 <==> s < 3 * p
  {
    var q := s / p;
    assert q * p <= s < (q + 1) * p;
    MulCancel(q, 4, p);
    MulCancel(2, q + 1, p);
    if s < 3 * p { MulCancel(q, 3, p); } else { MulCancel(3, q + 1, p); }
  }

  lemma MulCancel(a: int, b: int, c: int)
    requires c > 0 && a * c < b * c
    ensures a < b
  {
  }

  lemma MulMono(a: nat, b: nat, c: nat)
    requires a <= b
    ensures a * c <= b * c
  {
  }

  lemma Pow2Next(k: nat)
    ensures Pow2(k + 1) == 2 * Pow2(k)
  {
  }

  lemma TreeIndexOfLog(s: nat, k: nat)
    requires MIN_LARGE_SIZE <= s && s / 256 <= 0xFFFF && k == Log2(s / 256)
    ensures k < 16
    ensures 2 * Pow2(k + 7) <= s < 4 * Pow2(k + 7)
    ensures TreeIndex(s) == if s < 3 * Pow2(k + 7) then 2 * k else 2 * k + 1
  {
    hide Log2, Pow2;
    Pow2Next(k);
    Pow2Unfold8(k);
    Pow2Values();
    if k >= 16 { Pow2Mono(16, k); }
    HalfBit(s, Pow2(k + 7));
  }

  lemma MinSizes(k: nat)
    ensures MinSizeForTreeIndex(2 * k) == 2 * Pow2(k + 7)
    ensures MinSizeForTreeIndex(2 * k + 1) == 3 * Pow2(k + 7)
    ensures MinSizeForTreeIndex(2 * k + 2) == 4 * Pow2(k + 7)
  {
    assert 2 * k / 2 == k && (2 * k + 1) / 2 == k && (2 * k + 2) / 2 == k + 1;
    assert Pow2(k + 9) == 2 * Pow2(k + 8) && Pow2(k + 8) == 2 * Pow2(k + 7);
  }

  /** Below the last bin, the trie range of a bin is the gap between consecutive minimum sizes. */
  lemma BinRange(i: nat)
    requires i < NTREEBINS
    ensures i < NTREEBINS - 1 ==> BinLo(i) + Pow2(BinBits(i)) == MinSizeForTreeIndex(i + 1)
    ensures i < NTREEBINS - 1 ==> BinLo(i) == (2 + i % 2) * Pow2(BinBits(i))
    ensures i == NTREEBINS - 1 ==> BinLo(i) == 0 && Pow2(BinBits(i)) == SIZE_T_RANGE
  {
    hide Pow2, MinSizeForTreeIndex;
    Pow2Values();
    MinSizes(i / 2);
    if i % 2 == 0 { assert i == 2 * (i / 2); } else { assert i == 2 * (i / 2) + 1; }
  }

  /** Every large size falls in the bin whose range brackets it. */
  lemma TreeIndexBrackets(s: nat)
    requires MIN_LARGE_SIZE <= s < SIZE_T_RANGE
    ensures TreeIndex(s) < NTREEBINS
    ensures MinSizeForTreeIndex(TreeIndex(s)) <= s
    ensures TreeIndex(s) < NTREEBINS - 1 ==> s < MinSizeForTreeIndex(TreeIndex(s) + 1)
    ensures BinLo(TreeIndex(s)) <= s < BinLo(TreeIndex(s)) + Pow2(BinBits(TreeIndex(s)))
  {
    hide Pow2, Log2, TreeIndex, MinSizeForTreeIndex, BinBits;
    if s / 256 > 0xFFFF { HighIndexBrackets(s); } else { LowIndexBrackets(s); }
    BinRange(TreeIndex(s));
  }

  lemma HighIndexBrackets(s: nat)
    requires s / 256 > 0xFFFF
    ensures TreeIndex(s) == NTREEBINS - 1 && MinSizeForTreeIndex(TreeIndex(s)) <= s
  {
    Pow2Values();
    MinSizes(15);
  }

  lemma LowIndexBrackets(s: nat)
    requires MIN_LARGE_SIZE <= s && s / 256 <= 0xFFFF
    ensures TreeIndex(s) < NTREEBINS && MinSizeForTreeIndex(TreeIndex(s)) <= s < MinSizeForTreeIndex(TreeIndex(s) + 1)
  {
    hide Pow2, Log2, TreeIndex, MinSizeForTreeIndex;
    var k := Log2(s / 256);
    TreeIndexOfLog(s, k);
    MinSizes(k);
  }

  lemma TreeIndexInRange(s: nat)
    requires s < SIZE_T_RANGE
    ensures TreeIndex(s) < NTREEBINS
  {
    if s >= MIN_LARGE_SIZE { TreeIndexBrackets(s); }
  }

  lemma {:induction false} MinSizeMono(i: nat, j: nat)
    requires i <= j
    ensures MinSizeForTreeIndex(i) <= MinSizeForTreeIndex(j)
  {
    if i < j {
      MinSizeMono(i, j - 1);
      var h := j - 1;
      if h % 2 == 0 {
        assert j / 2 == h / 2;
      } else {
        assert j / 2 == h / 2 + 1;
        assert Pow2(h / 2 + 9) == 2 * Pow2(h / 2 + 8) && Pow2(h / 2 + 8) == 2 * Pow2(h / 2 + 7);
      }
    }
  }

  /** Bins are ordered by size: a larger bin holds only larger chunks. */
  lemma TreeIndexOrders(s: nat, t: nat)
    requires MIN_LARGE_SIZE <= s < SIZE_T_RANGE && MIN_LARGE_SIZE <= t < SIZE_T_RANGE
    requires TreeIndex(s) < TreeIndex(t)
    ensures s < t
  {
    hide Pow2, Log2, TreeIndex, MinSizeForTreeIndex;
    TreeIndexBrackets(s);
    TreeIndexBrackets(t);
    MinSizeMono(TreeIndex(s) + 1, TreeIndex(t));
  }

  lemma ScaledKey(s: nat, lo: nat, c: nat, w: nat, sc: nat)
    requires w * sc == SIZE_T_RANGE && lo == c * w && lo <= s < lo + w
    ensures s * sc % SIZE_T_RANGE == (s - lo) * sc
  {
    assert lo * sc == c * SIZE_T_RANGE by { assert lo * sc == c * (w * sc); }
    var d := s - lo;
    assert s * sc == d * sc + c * SIZE_T_RANGE;
    assert 0 <= d * sc < SIZE_T_RANGE by { MulMono(d, w - 1, sc); assert (w - 1) * sc == w * sc - sc; assert sc > 0; }
    ModOffset(d * sc, c);
  }

  lemma ModOffset(x: nat, c: nat)
    requires x < SIZE_T_RANGE
    ensures (x + c * SIZE_T_RANGE) % SIZE_T_RANGE == x
  {
  }

  /** The shifted search key starts with the top distinguishing bit of the bin as its sign bit:
      it is the offset of s in the bin's range, scaled so that the range spans 32 bits. */
  lemma InitialSearchKey(s: nat)
    requires MIN_LARGE_SIZE <= s < SIZE_T_RANGE
    ensures TreeIndex(s) < NTREEBINS
    ensures BinBits(TreeIndex(s)) <= 32
    ensures Shl32(s, LeftShiftForTreeIndex(TreeIndex(s)))
         == (s - BinLo(TreeIndex(s))) * Pow2(32 - BinBits(TreeIndex(s)))
  {
    TreeIndexBrackets(s);
    var i := TreeIndex(s);
    Pow2Values();
    BinRange(i);
    if i < NTREEBINS - 1 {
      var b := BinBits(i);
      Pow2Add(b, 32 - b);
      ScaledKey(s, BinLo(i), 2 + i % 2, Pow2(b), Pow2(32 - b));
    } else {
      assert Pow2(0) == 1;
    }
  }

  /** One search step: the sign bit of the scaled key tells the half of the range that holds s,
      and shifting the key left by one rescales it to that half. */
  lemma SearchKeyStep(s: nat, lo: nat, b: nat, key: nat)
    requires 0 < b <= 32 && lo <= s < lo + Pow2(b)
    requires key == (s - lo) * Pow2(32 - b)
    ensures key < SIZE_T_RANGE
    ensures key / 0x8000_0000 == (if s < lo + Pow2(b - 1) then 0 else 1)
    ensures Shl32(key, 1)
         == (s - (if s < lo + Pow2(b - 1) then lo else lo + Pow2(b - 1))) * Pow2(32 - (b - 1))
  {
    var h, sc := Pow2(b - 1), Pow2(32 - b);
    Pow2Add(b - 1, 32 - b);
    Pow2Values();
    assert h * sc == 0x8000_0000;
    assert Pow2(32 - (b - 1)) == 2 * sc;
    HalvesOfKey(s - lo, h, sc);
  }

  lemma HalvesOfKey(d: nat, h: nat, sc: nat)
    requires h * sc == 0x8000_0000 && d < 2 * h && sc > 0
    ensures d * sc < SIZE_T_RANGE
    ensures d * sc / 0x8000_0000 == (if d < h then 0 else 1)
    ensures d * sc * 2 % SIZE_T_RANGE == (if d < h then d else d - h) * (2 * sc)
  {
    var e := if d < h then d else d - h;
    MulMono(e, h - 1, sc);
    assert (h - 1) * sc == h * sc - sc;
    assert d >= h ==> d * sc == e * sc + h * sc;
    assert e * (2 * sc) == 2 * (e * sc);
  }
}
