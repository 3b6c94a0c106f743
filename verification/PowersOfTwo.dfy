/** Powers of two, bit masks and remainders, as the ring buffer and its histogram use them. */
module PowersOfTwo {

  /** Bitwise and of two naturals. */
  function BitAnd(x: nat, y: nat): nat {
    if x == 0 || y == 0 then 0 else (x % 2) * (y % 2) + 2 * BitAnd(x / 2, y / 2)
  }

  function Pow2(k: nat): nat
    ensures Pow2(k) > 0
  {
    if k == 0 then 1 else 2 * Pow2(k - 1)
  }

  /** The least power of two that is not below n, as `next_power_of_two` computes it. */
  function NextPowerOfTwo(n: nat): (r: nat)
    ensures r >= n && r > 0 && exists k :: r == Pow2(k)
    ensures forall k :: Pow2(k) >= n ==> r <= Pow2(k)
  {
    Grow(n, 0)
  }

  function Grow(n: nat, k: nat): (r: nat)
    requires forall j: nat :: j < k ==> Pow2(j) < n
    ensures r >= n && exists j :: r == Pow2(j)
    ensures forall j :: Pow2(j) >= n ==> r <= Pow2(j)
    decreases n - Pow2(k)
  {
    if Pow2(k) >= n then
      PowersGrow();
      Pow2(k)
    else
      Grow(n, k + 1)
  }

  lemma {:induction false} PowerGrows(j: nat, k: nat)
    requires j <= k
    ensures Pow2(j) <= Pow2(k)
  {
    if j < k {
      PowerGrows(j, k - 1);
    }
  }

  lemma PowersGrow()
    ensures forall j: nat, k: nat :: j <= k ==> Pow2(j) <= Pow2(k)
  {
    forall j: nat, k: nat | j <= k ensures Pow2(j) <= Pow2(k) {
      PowerGrows(j, k);
    }
  }

  /** Masking with a power of two less one is the remainder modulo that power. */
  lemma MaskIsRemainder(x: nat, k: nat)
    ensures BitAnd(x, Pow2(k) - 1) == x % Pow2(k)
  {
    var q := MaskLeavesMultiple(x, k);
    RemainderIsUnique(x, Pow2(k), q, BitAnd(x, Pow2(k) - 1));
  }

  lemma {:induction false} MaskLeavesMultiple(x: nat, k: nat) returns (q: nat)
    ensures x == Pow2(k) * q + BitAnd(x, Pow2(k) - 1) && BitAnd(x, Pow2(k) - 1) < Pow2(k)
  {
    if k == 0 {
      q := x;
    } else {
      var c := Pow2(k - 1);
      q := MaskLeavesMultiple(x / 2, k - 1);
      OddMask(x, c - 1, Pow2(k) - 1, BitAnd(x / 2, c - 1));
      DoubledQuotient(x, x / 2, x % 2, c, Pow2(k), q, BitAnd(x / 2, c - 1));
    }
  }

  lemma DoubledQuotient(x: nat, half: nat, bit: nat, c: nat, doubled: nat, q: nat, low: nat)
    requires x == 2 * half + bit && bit < 2 && doubled == 2 * c
    requires half == c * q + low && low < c
    ensures x == doubled * q + (bit + 2 * low) && bit + 2 * low < doubled
  {
    assert doubled * q == 2 * (c * q);
  }

  lemma OddMask(x: nat, y: nat, mask: nat, low: nat)
    requires mask == 2 * y + 1 && BitAnd(x / 2, y) == low
    ensures BitAnd(x, mask) == x % 2 + 2 * low
  {
    BitAndOdd(x, y);
  }

  lemma BitAndOdd(x: nat, y: nat)
    ensures BitAnd(x, 2 * y + 1) == x % 2 + 2 * BitAnd(x / 2, y)
  {
    assert (2 * y + 1) % 2 == 1 && (2 * y + 1) / 2 == y;
  }

  lemma RemainderIsUnique(x: nat, m: nat, q: nat, r: nat)
    requires m > 0 && x == m * q + r && r < m
    ensures x % m == r
  {
    assert x == m * (x / m) + x % m;
    QuotientIsUnique(m, q, r, x / m, x % m);
  }

  lemma QuotientIsUnique(m: nat, q: nat, r: nat, q': nat, r': nat)
    requires m * q + r == m * q' + r' && r < m && r' < m
    ensures r == r'
  {
    if q < q' {
      Multiple(m, q, q');
    } else if q' < q {
      Multiple(m, q', q);
    }
  }

  lemma {:induction false} Multiple(m: nat, a: nat, b: nat)
    requires a < b
    ensures m * a + m <= m * b
  {
    assert m * b == m * (b - 1) + m;
    if a < b - 1 {
      Multiple(m, a, b - 1);
    }
  }

  /** Sequence numbers less than a capacity apart use different slots. */
  lemma OtherSlots(lo: nat, s: nat, capacity: nat)
    requires capacity > 0 && lo <= s < lo + capacity
    ensures forall u :: lo <= u < lo + capacity && u != s ==> u % capacity != s % capacity
  {
    forall u | lo <= u < lo + capacity && u != s ensures u % capacity != s % capacity {
      if u < s {
        DistinctRemainders(u, s, capacity);
      } else {
        DistinctRemainders(s, u, capacity);
      }
    }
  }

  lemma DistinctRemainders(u: nat, s: nat, m: nat)
    requires u < s < u + m
    ensures u % m != s % m
  {
    var q, q' := u / m, s / m;
    assert u == m * q + u % m && s == m * q' + s % m;
    assert s - u == m * (q' - q) + (s % m - u % m);
    NoMultipleBetween(m, q' - q, s - u);
  }

  lemma NoMultipleBetween(m: nat, k: int, d: int)
    requires 0 < d < m
    ensures m * k != d
  {
    if k >= 1 {
      assert m * k == m * (k - 1) + m && m * (k - 1) >= 0;
    } else {
      assert m * k == -(m * -k) && m * -k >= 0;
    }
  }

  lemma RemainderPeriod(s: nat, m: nat)
    requires m > 0
    ensures (s + m) % m == s % m
  {
    assert s + m == m * (s / m + 1) + s % m;
    RemainderIsUnique(s + m, m, s / m + 1, s % m);
  }

  lemma EverySlotIsCovered(lo: nat, m: nat, i: nat)
    requires i < m
    ensures exists u :: lo <= u < lo + m && u % m == i
  {
    var r := lo % m;
    var u := if i >= r then lo + (i - r) else lo + (m + i - r);
    assert lo == m * (lo / m) + r;
    if i >= r {
      RemainderIsUnique(u, m, lo / m, i);
    } else {
      assert u == m * (lo / m + 1) + i;
      RemainderIsUnique(u, m, lo / m + 1, i);
    }
  }

  /** The position of the highest set bit, counted from one: BITS less the leading zeros. */
  function BitLength(n: nat): nat {
    if n == 0 then 0 else 1 + BitLength(n / 2)
  }

  lemma {:induction false} BitLengthBounds(n: nat)
    requires n > 0
    ensures BitLength(n) > 0 && Pow2(BitLength(n) - 1) <= n < Pow2(BitLength(n))
  {
    if n > 1 {
      BitLengthBounds(n / 2);
    } else {
      assert BitLength(0) == 0;
    }
  }

  lemma {:induction false} BitLengthMonotone(a: nat, b: nat)
    requires a <= b
    ensures BitLength(a) <= BitLength(b)
  {
    if a > 0 {
      BitLengthMonotone(a / 2, b / 2);
    }
  }
}
