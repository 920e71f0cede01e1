/** Unsigned words as naturals, their bitwise operators, and the bit tricks with
    which the userland heap searches its 32-bit bin maps. */
module BinMap {
  import opened SizeClass

  /** Bit i of a word. */
  predicate Bit(x: nat, i: nat)
  {
    if i == 0 then x % 2 == 1 else Bit(x / 2, i - 1)
  }

  function And(x: nat, y: nat): nat
  {
    if x == 0 || y == 0 then 0 else 2 * And(x / 2, y / 2) + (x % 2) * (y % 2)
  }

  function Or(x: nat, y: nat): nat
    decreases x + y
  {
    if x == 0 && y == 0 then 0
    else 2 * Or(x / 2, y / 2) + (if x % 2 == 1 || y % 2 == 1 then 1 else 0)
  }

  /** Complement and two's complement of an n-bit word. */
  function Not(x: nat, n: nat): nat
    requires x < Pow2(n)
  {
    Pow2(n) - 1 - x
  }

  function Neg(x: nat, n: nat): nat
    requires x < Pow2(n)
  {
    if x == 0 then 0 else Pow2(n) - x
  }

  /** Count of trailing zeros. */
  function Ctz(x: nat): nat
    requires x > 0
  {
    if x % 2 == 1 then 0 else 1 + Ctz(x / 2)
  }

  lemma {:induction false} ZeroBits(i: nat)
    ensures !Bit(0, i)
  {
    if i > 0 { ZeroBits(i - 1); }
  }

  lemma {:induction false} AndBit(x: nat, y: nat, i: nat)
    ensures Bit(And(x, y), i) <==> Bit(x, i) && Bit(y, i)
  {
    if x == 0 || y == 0 {
      ZeroBits(i);
    } else {
      assert And(x, y) / 2 == And(x / 2, y / 2);
      if i > 0 { AndBit(x / 2, y / 2, i - 1); }
    }
  }

  lemma {:induction false} OrBit(x: nat, y: nat, i: nat)
    ensures Bit(Or(x, y), i) <==> Bit(x, i) || Bit(y, i)
    decreases i
  {
    if x == 0 && y == 0 {
      ZeroBits(i);
    } else {
      assert Or(x, y) / 2 == Or(x / 2, y / 2);
      if i > 0 { OrBit(x / 2, y / 2, i - 1); }
    }
  }

  lemma {:induction false} NotBit(x: nat, n: nat, i: nat)
    requires x < Pow2(n) && i < n
    ensures Bit(Not(x, n), i) <==> !Bit(x, i)
  {
    assert Not(x, n) / 2 == Not(x / 2, n - 1);
    if i > 0 { NotBit(x / 2, n - 1, i - 1); }
  }

  lemma {:induction false} Pow2Bit(k: nat, i: nat)
    ensures Bit(Pow2(k), i) <==> k == i
  {
    if k == 0 {
      if i > 0 { ZeroBits(i - 1); }
    } else if i > 0 {
      Pow2Bit(k - 1, i - 1);
    }
  }

  lemma {:induction false} WordBound(x: nat, y: nat, n: nat)
    requires x < Pow2(n) && y < Pow2(n)
    ensures Or(x, y) < Pow2(n) && And(x, y) < Pow2(n)
    decreases n
  {
    if n > 0 { WordBound(x / 2, y / 2, n - 1); }
  }

  lemma {:induction false} HasBit(x: nat, n: nat)
    requires 0 < x < Pow2(n)
    ensures Ctz(x) < n && Bit(x, Ctz(x))
    ensures forall j :: 0 <= j < Ctz(x) ==> !Bit(x, j)
  {
    if x % 2 == 0 {
      HasBit(x / 2, n - 1);
      forall j | 0 <= j < Ctz(x) ensures !Bit(x, j) {
        if j > 0 { assert !Bit(x / 2, j - 1); }
      }
    }
  }

  lemma {:induction false} AndNot(x: nat, n: nat)
    requires x < Pow2(n)
    ensures And(x, Not(x, n)) == 0
  {
    if n > 0 {
      assert Not(x, n) / 2 == Not(x / 2, n - 1);
      AndNot(x / 2, n - 1);
    }
  }

  /** least_bit: x & -x isolates the lowest set bit. */
  lemma {:induction false} LeastBitIsolates(x: nat, n: nat)
    requires 0 < x < Pow2(n)
    ensures And(x, Neg(x, n)) == Pow2(Ctz(x))
  {
    if x % 2 == 0 {
      assert Neg(x, n) == 2 * Neg(x / 2, n - 1);
      LeastBitIsolates(x / 2, n - 1);
    } else {
      assert Neg(x, n) / 2 == Not(x / 2, n - 1);
      AndNot(x / 2, n - 1);
    }
  }

  /** same_or_left_bits: y | -y has exactly the bits from the lowest set bit of y upwards. */
  lemma {:induction false} SameOrLeftBits(y: nat, n: nat, j: nat)
    requires 0 < y < Pow2(n) && j < n
    ensures Bit(Or(y, Neg(y, n)), j) <==> j >= Ctz(y)
  {
    OrBit(y, Neg(y, n), j);
    if y % 2 == 0 {
      assert Neg(y, n) == 2 * Neg(y / 2, n - 1);
      if j > 0 {
        SameOrLeftBits(y / 2, n - 1, j - 1);
        OrBit(y / 2, Neg(y / 2, n - 1), j - 1);
      }
    } else if j > 0 {
      assert Neg(y, n) / 2 == Not(y / 2, n - 1);
      NotBit(y / 2, n - 1, j - 1);
    }
  }

  lemma {:induction false} CtzOfPow2(k: nat)
    ensures Ctz(Pow2(k)) == k
  {
    if k > 0 { CtzOfPow2(k - 1); }
  }

  // ---- the operations of the heap on 32-bit maps ----

  type binmap = m: nat | m < SIZE_T_RANGE

  function Idx2Bit(i: nat): binmap
    requires i < 32
  {
    Pow2Values(); Pow2Mono(i, 31);
    Pow2(i)
  }

  function Mark(m: binmap, i: nat): (r: binmap)
    requires i < 32
    ensures forall j | 0 <= j < 32 :: Bit(r, j) <==> j == i || Bit(m, j)
  {
    Pow2Values();
    WordBound(m, Idx2Bit(i), 32);
    assert forall j | 0 <= j < 32 :: Bit(Or(m, Idx2Bit(i)), j) <==> j == i || Bit(m, j) by {
      forall j | 0 <= j < 32
        ensures Bit(Or(m, Idx2Bit(i)), j) <==> j == i || Bit(m, j)
      {
        OrBit(m, Idx2Bit(i), j); Pow2Bit(i, j);
      }
    }
    Or(m, Idx2Bit(i))
  }

  function Clear(m: binmap, i: nat): (r: binmap)
    requires i < 32
    ensures forall j | 0 <= j < 32 :: Bit(r, j) <==> j != i && Bit(m, j)
  {
    Pow2Values();
    WordBound(m, Not(Idx2Bit(i), 32), 32);
    assert forall j | 0 <= j < 32 :: Bit(And(m, Not(Idx2Bit(i), 32)), j) <==> j != i && Bit(m, j) by {
      forall j | 0 <= j < 32
        ensures Bit(And(m, Not(Idx2Bit(i), 32)), j) <==> j != i && Bit(m, j)
      {
        AndBit(m, Not(Idx2Bit(i), 32), j); NotBit(Idx2Bit(i), 32, j); Pow2Bit(i, j);
      }
    }
    And(m, Not(Idx2Bit(i), 32))
  }

  function LeastBit(x: binmap): nat
  {
    Pow2Values();
    And(x, Neg(x, 32))
  }

  function LeftBits(x: binmap): nat
  {
    Pow2Values();
    var y := x * 2 % SIZE_T_RANGE;
    Or(y, Neg(y, 32))
  }

  /** Masking with left_bits(idx2bit(i)) keeps exactly the marked bins above i. */
  lemma LeftBitsAbove(m: binmap, i: nat, j: nat)
    requires i < 32 && j < 32
    ensures Bit(And(LeftBits(Idx2Bit(i)), m), j) <==> j > i && Bit(m, j)
  {
    Pow2Values();
    AndBit(LeftBits(Idx2Bit(i)), m, j);
    if i < 31 {
      Pow2Mono(i + 1, 31);
      assert Idx2Bit(i) * 2 % SIZE_T_RANGE == Pow2(i + 1);
      SameOrLeftBits(Pow2(i + 1), 32, j);
      CtzOfPow2(i + 1);
    } else {
      ZeroBits(j);
    }
  }

  /** The least marked bin above i, as tmalloc_large computes it. */
  function NextMarked(m: binmap, i: nat): (r: nat)
    requires i < 32
    ensures r <= 32
    ensures r < 32 ==> r > i && Bit(m, r)
    ensures forall j :: i < j < r && j < 32 ==> !Bit(m, j)
  {
    Pow2Values();
    var x := And(LeftBits(Idx2Bit(i)), m);
    assert forall j :: 0 <= j < 32 ==> (Bit(x, j) <==> j > i && Bit(m, j)) by {
      forall j | 0 <= j < 32 ensures Bit(x, j) <==> j > i && Bit(m, j) { LeftBitsAbove(m, i, j); }
    }
    AndAtMost(LeftBits(Idx2Bit(i)), m);
    if x == 0 then
      ZeroHasNoBits();
      32
    else
      LeastBitIsolates(x, 32); CtzOfPow2(Ctz(x)); HasBit(x, 32);
      Ctz(LeastBit(x))
  }

  lemma ZeroHasNoBits()
    ensures forall j: nat :: !Bit(0, j)
  {
    forall j: nat ensures !Bit(0, j) { ZeroBits(j); }
  }

  lemma {:induction false} AndAtMost(x: nat, y: nat)
    ensures And(x, y) <= y
  {
    if x != 0 && y != 0 { AndAtMost(x / 2, y / 2); }
  }

  /** The least marked bin of a non-empty map, as tmalloc_small computes it. */
  function FirstMarked(m: binmap): (r: nat)
    requires m != 0
    ensures r < 32 && Bit(m, r)
    ensures forall j :: 0 <= j < r ==> !Bit(m, j)
  {
    Pow2Values();
    LeastBitIsolates(m, 32); CtzOfPow2(Ctz(m)); HasBit(m, 32);
    Ctz(LeastBit(m))
  }

  function Quotient(m: nat, p: nat): (q: nat)
    requires p > 0
    ensures q <= m
  {
    QuotientAtMost(m, p);
    m / p
  }

  /** Right shift. */
  function Shr(m: nat, i: nat): (r: nat)
    ensures r <= m
  {
    Quotient(m, Pow2(i))
  }

  lemma {:induction false} ShiftRightBit(m: nat, i: nat, j: nat)
    ensures Bit(Shr(m, i), j) <==> Bit(m, i + j)
  {
    if i > 0 {
      DivDiv(m, Pow2(i - 1));
      ShiftRightBit(m / 2, i - 1, j);
    }
  }

  lemma DivDiv(m: nat, p: nat)
    requires p > 0
    ensures m / (2 * p) == m / 2 / p
  {
    var q, r := m / 2 / p, m / 2 % p;
    assert m / 2 == q * p + r;
    assert m == q * (2 * p) + (2 * r + m % 2);
    QuotientUnique(m, 2 * p, q, 2 * r + m % 2);
  }

  lemma QuotientAtMost(m: nat, p: nat)
    requires p > 0
    ensures 0 <= m / p <= m
  {
    var q := m / p;
    assert q * p <= m < (q + 1) * p;
    MulCancel(-1, q, p);
    MulMono(1, p, q);
  }

  lemma QuotientUnique(m: nat, d: nat, q: nat, r: nat)
    requires d > 0 && r < d && m == q * d + r
    ensures m / d == q
  {
    var q' := m / d;
    assert q' * d <= m < (q' + 1) * d;
    assert q * d <= m < (q + 1) * d;
    MulCancel(q', q + 1, d);
    MulCancel(q, q' + 1, d);
  }

  lemma {:induction false} SameBits(x: nat, y: nat, n: nat)
    requires x < Pow2(n) && y < Pow2(n) && forall j :: 0 <= j < n ==> (Bit(x, j) <==> Bit(y, j))
    ensures x == y
  {
    if n > 0 {
      assert Bit(x, 0) <==> Bit(y, 0);
      forall j | 0 <= j < n - 1 ensures Bit(x / 2, j) <==> Bit(y / 2, j) { assert Bit(x, j + 1) <==> Bit(y, j + 1); }
      SameBits(x / 2, y / 2, n - 1);
    }
  }

  lemma MarkMarked(m: binmap, i: nat)
    requires i < 32 && Bit(m, i)
    ensures Mark(m, i) == m
  {
    Pow2Values();
    SameBits(Mark(m, i), m, 32);
  }

  // ---- the small-bin map, as dlmalloc reads it ----


  lemma {:induction false} ShlBit(x: nat, i: nat, j: nat)
    ensures Bit(x * Pow2(i), j) <==> j >= i && Bit(x, j - i)
  {
    if i > 0 {
      assert x * Pow2(i) == 2 * (x * Pow2(i - 1));
      assert x * Pow2(i) / 2 == x * Pow2(i - 1);
      if j > 0 { ShlBit(x, i - 1, j - 1); }
    }
  }

  lemma {:induction false} LowBits(x: nat, n: nat, j: nat)
    requires j < n
    ensures Bit(x % Pow2(n), j) <==> Bit(x, j)
  {
    var q, r := x / Pow2(n), x % Pow2(n);
    assert x == q * Pow2(n) + r;
    HalfMod(x, Pow2(n - 1));
    if j > 0 { LowBits(x / 2, n - 1, j - 1); }
  }

  lemma HalfMod(x: nat, p: nat)
    requires p > 0
    ensures (x % (2 * p)) / 2 == (x / 2) % p && (x % (2 * p)) % 2 == x % 2
  {
    var q, r := x / (2 * p), x % (2 * p);
    assert x == 2 * (q * p) + r by { assert x == q * (2 * p) + r; }
    assert x / 2 == q * p + r / 2;
    QuotientUnique(x / 2, p, q, r / 2);
    assert x / 2 == (x / 2) / p * p + (x / 2) % p;
  }

  /** The bits of smallmap >> idx are those from idx on. */
  lemma SmallBits(m: binmap, idx: nat, j: nat)
    requires idx < 32
    ensures Bit(Shr(m, idx), j) <==> Bit(m, idx + j)
  {
    ShiftRightBit(m, idx, j);
  }

  /** The bits of (smallmap >> idx) << idx. */
  lemma MaskedBits(m: binmap, idx: nat, j: nat)
    requires idx < 32 && j < 32
    ensures Bit(Shl32(Shr(m, idx), idx), j) <==> j >= idx && Bit(m, j)
  {
    hide Bit, Shr;
    Pow2Values();
    LowBits(Shr(m, idx) * Pow2(idx), 32, j);
    ShlBit(Shr(m, idx), idx, j);
    if j >= idx { SmallBits(m, idx, j - idx); }
  }

  lemma {:induction false} BitBound(m: nat, n: nat, j: nat)
    requires m < Pow2(n) && j >= n
    ensures !Bit(m, j)
  {
    if n == 0 { ZeroBits(j); } else { BitBound(m / 2, n - 1, j - 1); }
  }

  /** smallbits & 3: the bin of the request or the next one is marked; idx += ~smallbits & 1 picks it. */
  lemma TwoLowBits(x: binmap)
    ensures And(x, 3) != 0 <==> Bit(x, 0) || Bit(x, 1)
    ensures x < Pow2(32) && And(Not(x, 32), 1) == if Bit(x, 0) then 0 else 1
  {
    Pow2Values();
    assert And(x, 3) == 2 * And(x / 2, 1) + x % 2 by {
      assert x == 0 || And(x, 3) == 2 * And(x / 2, 3 / 2) + (x % 2) * (3 % 2);
    }
    OneBit(x / 2);
    assert Bit(x, 1) <==> Bit(x / 2, 0);
    OneBit(Not(x, 32));
    NotBit(x, 32, 0);
  }

  lemma OneBit(x: nat)
    ensures And(x, 1) == x % 2
  {
  }

  /** Where the search of the small bins ends: at the bin of the request, the one after it, or the next marked one. */
  lemma SmallSearch(m: binmap, idx: nat)
    requires idx < 32
    ensures var sb := Shr(m, idx);
      && sb < SIZE_T_RANGE
      && (And(sb, 3) != 0 ==>
            var i := idx + (if Bit(sb, 0) then 0 else 1);
            i < 32 && Bit(m, i) && (i > idx ==> !Bit(m, idx)))
      && (And(sb, 3) == 0 ==> !Bit(m, idx) && !Bit(m, idx + 1))
      && (sb == 0 ==> forall j :: idx <= j < 32 ==> !Bit(m, j))
      && (And(sb, 3) == 0 && sb != 0 ==>
            var i := NextMarked(Shl32(sb, idx), idx);
            i < 32 && i > idx + 1 && Bit(m, i) && forall j :: idx <= j < i ==> !Bit(m, j))
  {
    hide Bit, Pow2, And, NextMarked;
    var sb := Shr(m, idx);
    Pow2Values();
    TwoLowBits(sb);
    SmallBits(m, idx, 0);
    SmallBits(m, idx, 1);
    if idx == 31 { BitBound(m, 32, 32); }
    if sb == 0 {
      ZeroHasNoBits();
      forall j | idx <= j < 32 ensures !Bit(m, j) { SmallBits(m, idx, j - idx); }
    } else if And(sb, 3) == 0 {
      SmallNext(m, idx);
    }
  }

  lemma SmallNext(m: binmap, idx: nat)
    requires idx < 32 && 0 < Shr(m, idx) < SIZE_T_RANGE && !Bit(m, idx) && !Bit(m, idx + 1)
    ensures var i := NextMarked(Shl32(Shr(m, idx), idx), idx);
      i < 32 && i > idx + 1 && Bit(m, i) && forall j :: idx <= j < i ==> !Bit(m, j)
  {
    hide Bit, Pow2, And, NextMarked;
    var sb := Shr(m, idx);
    var x := Shl32(sb, idx);
    Pow2Values();
    HasBit(sb, 32);
    var k := Ctz(sb);
    SmallBits(m, idx, k);
    if idx + k >= 32 { BitBound(m, 32, idx + k); }
    MaskedBits(m, idx, idx + k);
    var i := NextMarked(x, idx);
    assert k > 0;
    assert Bit(x, idx + k) && idx < idx + k < 32;
    MaskedBits(m, idx, i);
    forall j | idx <= j < i ensures !Bit(m, j) { if j > idx { MaskedBits(m, idx, j); } }
  }
}
