/** Fixed-width C arithmetic, written out over Dafny's unbounded integers, and the
    few facts about remainders that the wrapping counters of the source rely on. */
module Machine {

  const TWO16: int := 0x1_0000
  const TWO32: int := 0x1_0000_0000
  const TWO31: int := 0x8000_0000

  type u8 = x: int | 0 <= x < 0x100
  type u16 = x: int | 0 <= x < 0x1_0000
  type u32 = x: int | 0 <= x < 0x1_0000_0000
  type s32 = x: int | -0x8000_0000 <= x < 0x8000_0000

  /** The value a u32 keeps of x. */
  function Wrap32(x: int): u32 {
    x % TWO32
  }

  function Min(a: int, b: int): int {
    if a <= b then a else b
  }

  function Max(a: int, b: int): int {
    if a <= b then b else a
  }

  /** Quotient and remainder are unique. */
  lemma DivModUnique(x: int, m: int, q: int, r: int)
    requires 0 < m && 0 <= r < m && x == q * m + r
    ensures x / m == q && x % m == r
  {
    var d := q - x / m;
    assert d * m == x % m - r by {
      assert d * m == q * m - (x / m) * m;
      assert x == (x / m) * m + x % m;
    }
  }

  /** Reducing a summand first does not change the remainder. */
  lemma ModAdd(x: int, a: int, m: int)
    requires 0 < m
    ensures (x % m + a) % m == (x + a) % m
  {
    var y := x % m + a;
    DivModUnique(x + a, m, x / m + y / m, y % m);
  }

  /** Position k of a window of at most m cells that starts at cell x % m. */
  lemma ModWindow(x: int, k: int, m: int)
    requires 0 <= k < m
    ensures (x + k) % m == if x % m + k < m then x % m + k else x % m + k - m
    ensures (x - m + k) % m == (x + k) % m
  {
    var r := x % m;
    if r + k < m {
      DivModUnique(x + k, m, x / m, r + k);
      DivModUnique(x - m + k, m, x / m - 1, r + k);
    } else {
      DivModUnique(x + k, m, x / m + 1, r + k - m);
      DivModUnique(x - m + k, m, x / m, r + k - m);
    }
  }

  /** Going back n positions returns to the same cell exactly when m divides n. */
  lemma ModShiftIff(x: int, n: int, m: int)
    requires 0 < m
    ensures (x - n) % m == x % m <==> n % m == 0
  {
    var y := x - n;
    if y % m == x % m {
      assert n == (x / m - y / m) * m + 0 by {
        assert (x / m - y / m) * m == (x / m) * m - (y / m) * m;
      }
      DivModUnique(n, m, x / m - y / m, 0);
    }
    if n % m == 0 {
      assert y == (x / m - n / m) * m + x % m by {
        assert (x / m - n / m) * m == (x / m) * m - (n / m) * m;
      }
      DivModUnique(y, m, x / m - n / m, x % m);
    }
  }

  /** The remainder by a variable divisor, defined by steps: specifications that mention it stay
      free of nonlinear terms. */
  function Rem(x: int, m: nat): (r: nat)
    requires 0 < m
    ensures r < m
    decreases if x < 0 then m - x else x
  {
    if x < 0 then Rem(x + m, m) else if x < m then x else Rem(x - m, m)
  }

  lemma {:induction false} RemIsMod(x: int, m: nat)
    requires 0 < m
    ensures Rem(x, m) == x % m
    decreases if x < 0 then m - x else x
  {
    if x < 0 {
      RemIsMod(x + m, m);
      ModShiftIff(x + m, m, m);
      DivModUnique(m, m, 1, 0);
    } else if x < m {
      DivModUnique(x, m, 0, x);
    } else {
      RemIsMod(x - m, m);
      ModShiftIff(x, m, m);
      DivModUnique(m, m, 1, 0);
    }
  }

  /** Going back from t by the remainder of the distance to i leads to the cell of i. */
  lemma SameCell(t: int, i: int, m: int)
    requires 0 < m
    ensures (t - (t - i) % m) % m == i % m
  {
    var q := (t - i) / m;
    assert t - (t - i) % m == (i / m + q) * m + i % m by {
      assert (i / m + q) * m == (i / m) * m + q * m;
    }
    DivModUnique(t - (t - i) % m, m, i / m + q, i % m);
  }

  /** A remainder is never larger than its dividend, and equal to a dividend below m. */
  lemma {:induction false} RemBound(x: nat, m: nat)
    requires 0 < m
    ensures Rem(x, m) <= x && (Rem(x, m) == 0 && x != 0 ==> m <= x)
  {
    if x >= m {
      RemBound(x - m, m);
    }
  }

  /** Two positions less than m apart fall on different cells. */
  lemma ModDistinct(i: int, j: int, m: int)
    requires 0 < j - i < m
    ensures i % m != j % m
  {
    ModWindow(i, j - i, m);
  }

  /** The wrapped difference of two wrapped counters is their distance, wrapped. */
  lemma WrapDelta(a: int, b: int)
    ensures Wrap32(Wrap32(a) - Wrap32(b)) == Wrap32(a - b)
  {
  }

  /** _read_write_delta; the 64-bit constant of the wrapped branch vanishes in the u32 result. */
  function ReadWriteDelta(tx: u32, rx: u32): (d: u32)
    ensures d == Wrap32(tx - rx)
  {
    if tx >= rx then tx - rx else Wrap32(0xFFFF_FFFF_FFFF_FFFF - rx + tx + 1)
  }

  /** The counter distance is the lag modulo 2^32, hence the lag itself while that is below 2^32. */
  lemma ReadWriteDeltaIsLag(t: nat, r: nat)
    requires r <= t
    ensures ReadWriteDelta(Wrap32(t), Wrap32(r)) == Wrap32(t - r)
    ensures ReadWriteDelta(Wrap32(t), Wrap32(r)) == t - r <==> t - r < TWO32
  {
    WrapDelta(t, r);
  }

  lemma WrapEqual(t: nat, r: nat)
    requires r <= t
    ensures Wrap32(t) == Wrap32(r) <==> Wrap32(t - r) == 0
  {
  }

  /** A remainder by a divisor of n ignores a reduction modulo n. */
  lemma ModOfDivisor(x: int, n: int, m: int)
    requires 0 < m && 0 < n && n % m == 0
    ensures (x % n) % m == x % m
  {
    var q := n / m;
    assert n == q * m;
    var y := x % n;
    assert x == (x / n) * n + y;
    assert (x / n) * n == ((x / n) * q) * m by {
      assert (x / n) * (q * m) == ((x / n) * q) * m;
    }
    assert x == ((x / n) * q + y / m) * m + y % m by {
      assert y == (y / m) * m + y % m;
      assert ((x / n) * q + y / m) * m == ((x / n) * q) * m + (y / m) * m;
    }
    DivModUnique(x, m, (x / n) * q + y / m, y % m);
  }

  /** What narrower and signed fields keep of x. */
  function Wrap16(x: int): u16 { x % TWO16 }
  function Signed8(x: int): int { (x + 0x80) % 0x100 - 0x80 }
  function Signed16(x: int): int { (x + 0x8000) % TWO16 - 0x8000 }
  function Signed32(x: int): s32 { (x + TWO31) % TWO32 - TWO31 }
  function Signed64(x: int): int { (x + 0x8000_0000_0000_0000) % 0x1_0000_0000_0000_0000 - 0x8000_0000_0000_0000 }

  function Abs(a: int): nat {
    if a >= 0 then a else -a
  }

  /** Division as C truncates it. */
  function Trunc(a: int, b: int): int
    requires b != 0
  {
    if a >= 0 <==> b > 0 then Abs(a) / Abs(b) else -(Abs(a) / Abs(b))
  }

  /** q is a / b with the fraction cut off: not further from 0, less than one off, of the same sign. */
  ghost predicate IsCutOff(q: int, a: int, b: int) {
    && 0 <= Abs(a) - Abs(q) * Abs(b) < Abs(b)
    && (q > 0 ==> (a > 0 <==> b > 0)) && (q < 0 ==> (a > 0 <==> b < 0))
  }

  lemma QuotientParts(x: nat, y: nat, q: int)
    requires 0 < y && q == x / y
    ensures 0 <= q && 0 <= x - q * y < y && (q > 0 ==> x > 0)
  {
  }

  lemma TruncCutsOff(a: int, b: int)
    requires b != 0
    ensures IsCutOff(Trunc(a, b), a, b)
  {
    var q := Abs(a) / Abs(b);
    QuotientParts(Abs(a), Abs(b), q);
    CutOffSign(if (a >= 0 <==> b > 0) then q else -q, q, a, b);
  }

  lemma CutOffSign(t: int, q: int, a: int, b: int)
    requires b != 0 && 0 <= q && t == (if (a >= 0 <==> b > 0) then q else -q)
    requires 0 <= Abs(a) - q * Abs(b) < Abs(b) && (q > 0 ==> Abs(a) > 0)
    ensures IsCutOff(t, a, b)
  {
  }

  lemma MulMono(a: int, b: int, c: int)
    requires a <= b && 0 <= c
    ensures a * c <= b * c
  {
    assert 0 <= (b - a) * c;
  }

  lemma DivMono(a: int, b: int, d: int)
    requires a <= b && 0 < d
    ensures a / d <= b / d
  {
    if a / d > b / d {
      MulMono(b / d + 1, a / d, d);
      assert false;
    }
  }

  lemma DivExact(q: int, d: int)
    requires 0 < d
    ensures q * d / d == q && (q * d) % d == 0
  {
    DivModUnique(q * d, d, q, 0);
  }

  lemma ConcatAssoc<T>(a: seq<T>, b: seq<T>, c: seq<T>)
    ensures (a + b) + c == a + (b + c)
  {
  }
}
