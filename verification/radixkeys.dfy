/** Radix-tree keys: 64-bit words cut into one 4-bit letter and ten 6-bit letters. */
module RadixKeys {
  import opened SizeClass
  import opened BinMap

  const KEYLEN_MAX: nat := 11
  const SLOTS: nat := 64
  const KEY_RANGE: nat := 0x1_0000_0000_0000_0000

  /** radix_tree_get_shift. */
  function GetShift(len: nat): (bits: nat)
    requires len <= KEYLEN_MAX
  {
    if len > 0 then 64 - (4 + 6 * (len - 1)) else 64
  }

  /** The leading len letters of a key, as a number. */
  function Prefix(key: nat, len: nat): (p: nat)
    requires len <= KEYLEN_MAX
  {
    Shr(key, GetShift(len))
  }

  /** radix_key_letter_at. */
  function LetterAt(key: nat, off: nat): (r: nat)
    requires off < KEYLEN_MAX
    ensures r < SLOTS
  {
    Shr(key, GetShift(off + 1)) % SLOTS
  }

  /** radix_key: the key with the letters from len on cleared. */
  function RadixKey(key: nat, len: nat): nat
    requires len <= KEYLEN_MAX
  {
    Shr(key, GetShift(len)) * Pow2(GetShift(len))
  }

  lemma Pow2Of64()
    ensures Pow2(6) == 64 && Pow2(0) == 1 && Pow2(64) == KEY_RANGE && Pow2(4) == 16 && Pow2(60) * 16 == KEY_RANGE
  {
    Pow2Values();
    Pow2Add(32, 32);
    Pow2Add(60, 4);
    assert Pow2(4) == 16 && Pow2(6) == 64 by { Pow2Add(4, 2); assert Pow2(2) == 4; assert Pow2(4) == 16; }
  }

  /** A prefix one letter longer. */
  lemma PrefixStep(key: nat, len: nat)
    requires len < KEYLEN_MAX && key < KEY_RANGE
    ensures Prefix(key, len + 1) == Prefix(key, len) * 64 + LetterAt(key, len)
  {
    Pow2Of64();
    if len == 0 {
      DivBound(key, Pow2(60), 16);
      DivBound(key, KEY_RANGE, 1);
    } else {
      var s := GetShift(len + 1);
      Pow2Add(s, 6);
      assert GetShift(len) == s + 6;
      DivTwice(key, Pow2(s));
    }
  }

  lemma DivBound(x: nat, p: nat, k: nat)
    requires p > 0 && x < k * p
    ensures x / p < k
  {
    var q := x / p;
    assert q * p <= x;
    MulCancel(q, k, p);
  }

  lemma DivTwice(x: nat, p: nat)
    requires p > 0
    ensures p * 64 > 0 && x / p == x / (p * 64) * 64 + x / p % 64
  {
    var q := x / p;
    assert q * p <= x < (q + 1) * p;
    var a, r := q / 64, q % 64;
    assert q == a * 64 + r;
    assert x == q * p + x % p;
    assert q * p == a * (p * 64) + r * p by {
      assert (a * 64) * p == a * (p * 64);
      assert q * p == (a * 64) * p + r * p;
    }
    assert r * p + x % p < p * 64 by { MulMono(r, 63, p); }
    QuotientUnique(x, p * 64, a, r * p + x % p);
  }

  lemma PrefixAll(key: nat)
    requires key < KEY_RANGE
    ensures Prefix(key, KEYLEN_MAX) == key && Prefix(key, 0) == 0
  {
    Pow2Of64();
    DivBound(key, KEY_RANGE, 1);
    assert key / 1 == key;
  }

  /** Longer common prefixes contain shorter ones. */
  lemma {:induction false} PrefixShorter(a: nat, b: nat, i: nat, j: nat)
    requires i <= j <= KEYLEN_MAX && a < KEY_RANGE && b < KEY_RANGE && Prefix(a, j) == Prefix(b, j)
    ensures Prefix(a, i) == Prefix(b, i)
    decreases j - i
  {
    hide Prefix, LetterAt;
    if i < j {
      PrefixStep(a, j - 1);
      PrefixStep(b, j - 1);
      PrefixShorter(a, b, i, j - 1);
    }
  }

  lemma SameLetter(a: nat, b: nat, i: nat, j: nat)
    requires i < j <= KEYLEN_MAX && a < KEY_RANGE && b < KEY_RANGE && Prefix(a, j) == Prefix(b, j)
    ensures LetterAt(a, i) == LetterAt(b, i)
  {
    hide Prefix, LetterAt;
    PrefixShorter(a, b, i + 1, j);
    PrefixShorter(a, b, i, j);
    PrefixStep(a, i);
    PrefixStep(b, i);
  }

  lemma Extend(a: nat, b: nat, i: nat)
    requires i < KEYLEN_MAX && a < KEY_RANGE && b < KEY_RANGE && Prefix(a, i) == Prefix(b, i)
    ensures LetterAt(a, i) == LetterAt(b, i) <==> Prefix(a, i + 1) == Prefix(b, i + 1)
  {
    hide Prefix, LetterAt;
    PrefixStep(a, i);
    PrefixStep(b, i);
  }

  /** The number of leading letters, up to len, that two keys share. */
  function EqualSize(a: nat, b: nat, len: nat): (r: nat)
    requires len <= KEYLEN_MAX && a < KEY_RANGE && b < KEY_RANGE
    ensures r <= len && Prefix(a, r) == Prefix(b, r)
    ensures r < len ==> Prefix(a, r + 1) != Prefix(b, r + 1) && LetterAt(a, r) != LetterAt(b, r)
  {
    PrefixAll(a); PrefixAll(b);
    EqualFrom(a, b, len, 0)
  }

  function EqualFrom(a: nat, b: nat, len: nat, i: nat): (r: nat)
    requires i <= len <= KEYLEN_MAX && a < KEY_RANGE && b < KEY_RANGE && Prefix(a, i) == Prefix(b, i)
    ensures i <= r <= len && Prefix(a, r) == Prefix(b, r)
    ensures r < len ==> Prefix(a, r + 1) != Prefix(b, r + 1) && LetterAt(a, r) != LetterAt(b, r)
    decreases len - i
  {
    if i == len then i
    else if Prefix(a, i + 1) == Prefix(b, i + 1) then EqualFrom(a, b, len, i + 1)
    else
      Extend(a, b, i);
      i
  }

  /** radix_key_equals compares the keys with the remaining letters cleared. */
  lemma KeyEquals(a: nat, b: nat, len: nat)
    requires len <= KEYLEN_MAX && a < KEY_RANGE && b < KEY_RANGE
    ensures RadixKey(a, len) == RadixKey(b, len) <==> Prefix(a, len) == Prefix(b, len)
  {
    var p := Pow2(GetShift(len));
    if Prefix(a, len) < Prefix(b, len) { MulStrict(Prefix(a, len), Prefix(b, len), p); }
    if Prefix(b, len) < Prefix(a, len) { MulStrict(Prefix(b, len), Prefix(a, len), p); }
  }

  lemma MulStrict(a: nat, b: nat, p: nat)
    requires a < b && p > 0
    ensures a * p < b * p
  {
  }

  /** radix_key_equal_size. */
  method KeyEqualSize(a: nat, b: nat, len: nat) returns (i: nat)
    requires len <= KEYLEN_MAX && a < KEY_RANGE && b < KEY_RANGE
    ensures i == EqualSize(a, b, len)
  {
    hide Prefix, RadixKey, LetterAt;
    PrefixAll(a);
    PrefixAll(b);
    i := 0;
    while i < len
      invariant i <= len && Prefix(a, i) == Prefix(b, i) && EqualFrom(a, b, len, i) == EqualSize(a, b, len)
    {
      KeyEquals(a, b, i + 1);
      if RadixKey(a, i + 1) != RadixKey(b, i + 1) { break; }
      i := i + 1;
    }
  }

  /** Keys that differ first at letter i are ordered as that letter. */
  lemma OrderedByLetter(a: nat, b: nat, i: nat)
    requires i < KEYLEN_MAX && a < KEY_RANGE && b < KEY_RANGE && Prefix(a, i) == Prefix(b, i)
      && LetterAt(a, i) < LetterAt(b, i)
    ensures a < b
  {
    hide Prefix, LetterAt;
    PrefixStep(a, i);
    PrefixStep(b, i);
    PrefixMono(b, a, i + 1);
  }

  lemma PrefixMono(a: nat, b: nat, i: nat)
    requires i <= KEYLEN_MAX
    ensures a <= b ==> Prefix(a, i) <= Prefix(b, i)
  {
    if a <= b {
      var p := Pow2(GetShift(i));
      var q, r := a / p, b / p;
      assert q * p <= a < (q + 1) * p && r * p <= b < (r + 1) * p;
      MulCancel(q, r + 1, p);
    }
  }

  /** The key that a walk rebuilds from a node's key and a slot: its own ten leading letters and the slot's. */
  lemma RebuiltKey(key: nat, i: nat)
    requires key < KEY_RANGE && i < SLOTS
    ensures var k := RadixKey(key, KEYLEN_MAX - 1) + i;
      k < KEY_RANGE && Prefix(k, KEYLEN_MAX - 1) == Prefix(key, KEYLEN_MAX - 1) && LetterAt(k, KEYLEN_MAX - 1) == i
  {
    Pow2Of64();
    assert GetShift(10) == 6 && GetShift(11) == 0;
    var q := key / 64;
    assert q < KEY_RANGE / 64;
    var k := q * 64 + i;
    assert k / 64 == q && k / 1 == k && k % 64 == i;
  }

  /** The rebuilt key has no bit in common with the slot number, so or-ing is adding. */
  lemma OrIsAdd(key: nat, i: nat)
    requires i < SLOTS
    ensures Or(key / 64 * 64, i) == key / 64 * 64 + i
  {
    OrHigh(key / 64, i, 6);
    assert Pow2(6) == 64 by { Pow2Of64(); }
  }

  lemma {:induction false} OrHigh(q: nat, i: nat, n: nat)
    requires i < Pow2(n)
    ensures Or(q * Pow2(n), i) == q * Pow2(n) + i
  {
    if n == 0 {
      OrZero(q);
    } else {
      assert q * Pow2(n) == 2 * (q * Pow2(n - 1));
      OrHigh(q, i / 2, n - 1);
      var x := q * Pow2(n);
      assert x / 2 == q * Pow2(n - 1) && x % 2 == 0;
      assert (x == 0 && i == 0) || Or(x, i) == 2 * Or(x / 2, i / 2) + (if i % 2 == 1 then 1 else 0);
    }
  }

  lemma {:induction false} OrZero(x: nat)
    ensures Or(x, 0) == x
  {
    if x > 0 { OrZero(x / 2); }
  }
}
