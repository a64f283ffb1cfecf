/** Modular index arithmetic shared by the ring-buffer model.

    The input buffer of the RS-232 bridge moves its head and tail with
    `i = (i + 1) % C`. `Slot(base, k, c)` names the index reached after
    `k` such steps from `base`; `Offset(base, p, c)` is the forward distance
    from `base` to `p`, which is also how occupancy is derived from head and
    tail. Dafny's `%` is Euclidean; every operand here is non-negative except
    the difference inside `Offset`, where the Euclidean result is exactly the
    `(p - base + c) % c` of the C idiom. */
module ModArith {

  /** The index reached from `base` after `k` single-step advances modulo `c`. */
  function Slot(base: int, k: int, c: int): (r: int)
    requires c > 0
    ensures 0 <= r < c
  {
    (base + k) % c
  }

  /** Forward distance from `base` to `p` around a ring of size `c`. */
  function Offset(base: int, p: int, c: int): (r: int)
    requires c > 0
    ensures 0 <= r < c
  {
    (p - base) % c
  }

  /** A multiple of a positive `c` that lies strictly between `-c` and `c` is zero. */
  lemma MulSmall(c: int, d: int)
    requires c > 0
    requires -c < c * d < c
    ensures d == 0
  {
  }

  /** Euclidean division is unique: any decomposition `x == c*q + m` with
      `0 <= m < c` is the one `/` and `%` compute. */
  lemma DivModUnique(x: int, c: int, q: int, m: int)
    requires c > 0
    requires 0 <= m < c
    requires x == c * q + m
    ensures x % c == m
    ensures x / c == q
  {
    var q0, m0 := x / c, x % c;
    assert x == c * q0 + m0;
    assert c * (q - q0) == m0 - m;
    MulSmall(c, q - q0);
  }

  /** One more step from `Slot(base, k, c)` lands on `Slot(base, k + 1, c)`:
      repeating the source's `(i + 1) % C` update `k` times is `(base + k) % C`. */
  lemma SlotSucc(base: int, k: int, c: int)
    requires c > 0
    ensures Slot(Slot(base, k, c), 1, c) == Slot(base, k + 1, c)
  {
    var x := base + k;
    var q, m := x / c, x % c;
    assert x == c * q + m;
    if m + 1 < c {
      DivModUnique(x + 1, c, q, m + 1);
      DivModUnique(m + 1, c, 0, m + 1);
    } else {
      DivModUnique(x + 1, c, q + 1, 0);
      DivModUnique(m + 1, c, 1, 0);
    }
  }

  /** Advancing a whole number of cycles returns to the starting index. */
  lemma SlotCycles(base: int, k: int, j: int, c: int)
    requires c > 0
    ensures Slot(base, k + c * j, c) == Slot(base, k, c)
  {
    var x := base + k;
    var q, m := x / c, x % c;
    assert x == c * q + m;
    assert x + c * j == c * (q + j) + m;
    DivModUnique(x + c * j, c, q + j, m);
  }

  /** An index inside the ring is its own slot. */
  lemma SlotInRange(base: int, c: int)
    requires 0 <= base < c
    ensures Slot(base, 0, c) == base
  {
    DivModUnique(base, c, 0, base);
  }

  /** Fewer than `c` steps apart never collide. */
  lemma SlotsDistinct(base: int, j: int, k: int, c: int)
    requires c > 0
    requires 0 < k - j < c
    ensures Slot(base, j, c) != Slot(base, k, c)
  {
    var x, y := base + j, base + k;
    assert x == c * (x / c) + x % c;
    assert y == c * (y / c) + y % c;
    if x % c == y % c {
      assert c * (y / c - x / c) == k - j;
      MulSmall(c, y / c - x / c);
    }
  }

  /** The forward distance from `base` to the slot `k` steps ahead is `k mod c`. */
  lemma OffsetOfSlot(base: int, k: int, c: int)
    requires 0 <= base < c
    ensures Offset(base, Slot(base, k, c), c) == k % c
  {
    var x := base + k;
    var q, m := x / c, x % c;
    assert x == c * q + m;
    var q', m' := k / c, k % c;
    assert k == c * q' + m';
    assert m - base == c * (q' - q) + m';
    DivModUnique(m - base, c, q' - q, m');
  }

  /** Reducing a non-negative number modulo `c` never makes it larger. */
  lemma ModAtMost(n: int, c: int)
    requires c > 0 && n >= 0
    ensures n % c <= n
  {
    if n < c {
      DivModUnique(n, c, 0, n);
    }
  }

  /** Stepping `Offset(base, p, c)` times from `base` reaches `p`. */
  lemma SlotOfOffset(base: int, p: int, c: int)
    requires 0 <= p < c
    ensures Slot(base, Offset(base, p, c), c) == p
  {
    var d := p - base;
    var q, m := d / c, d % c;
    assert d == c * q + m;
    assert base + m == c * (-q) + p;
    DivModUnique(base + m, c, -q, p);
  }

  /** For indices inside the ring, distance zero means the same index. */
  lemma OffsetZero(base: int, p: int, c: int)
    requires 0 <= base < c && 0 <= p < c
    ensures Offset(base, p, c) == 0 <==> base == p
  {
    if base == p {
      DivModUnique(0, c, 0, 0);
    } else if Offset(base, p, c) == 0 {
      SlotOfOffset(base, p, c);
      SlotInRange(base, c);
    }
  }

  /** The last index below `n` that is congruent to `d` modulo `c`: the
      step whose write survives in a slot at distance `d` after `n` steps. */
  lemma LastVisit(d: int, n: int, c: int) returns (k: int, j: int)
    requires c > 0
    requires 0 <= d < n && d < c
    ensures d <= k < n && n - c <= k
    ensures k == d + c * j
  {
    var q, m := (n - 1 - d) / c, (n - 1 - d) % c;
    assert n - 1 - d == c * q + m;
    assert q >= 0;
    k, j := d + c * q, q;
    assert c * q >= 0;
  }

  /** `i` steps followed by `j` steps is `i + j` steps. */
  lemma SlotAdd(base: int, i: int, j: int, c: int)
    requires c > 0
    ensures Slot(Slot(base, i, c), j, c) == Slot(base, i + j, c)
  {
    var x := base + i;
    var q, m := x / c, x % c;
    assert x == c * q + m;
    SlotCycles(m, j, q, c);
    assert m + (j + c * q) == base + (i + j);
  }

  /** Moving `base` forward by `n` steps, no further than `p`, shortens the
      distance to `p` by exactly `n`. */
  lemma OffsetShift(base: int, p: int, n: int, c: int)
    requires 0 <= base < c && 0 <= p < c
    requires 0 <= n <= Offset(base, p, c)
    ensures Offset(Slot(base, n, c), p, c) == Offset(base, p, c) - n
  {
    var o := Offset(base, p, c);
    var d := p - base;
    var q := d / c;
    assert d == c * q + o;
    var x := base + n;
    var q2, m2 := x / c, x % c;
    assert x == c * q2 + m2;
    assert p - m2 == c * (q + q2) + (o - n);
    DivModUnique(p - m2, c, q + q2, o - n);
  }
}
