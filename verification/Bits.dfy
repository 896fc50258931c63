/** Powers of two and bitwise AND on naturals; the size rounding of comm.c. */
module Bits {
  import opened Options

  function Pow2(n: nat): (p: nat)
    ensures p >= 1
  {
    if n == 0 then 1 else 2 * Pow2(n - 1)
  }

  ghost predicate IsPow2(v: nat) {
    exists k: nat :: v == Pow2(k)
  }

  function And(a: nat, b: nat): nat {
    if a == 0 || b == 0 then 0
    else 2 * And(a / 2, b / 2) + if a % 2 == 1 && b % 2 == 1 then 1 else 0
  }

  ghost predicate Bit(v: nat, i: nat) {
    if i == 0 then v % 2 == 1 else Bit(v / 2, i - 1)
  }

  lemma Pow2Monotone(a: nat, b: nat)
    requires a <= b
    ensures Pow2(a) <= Pow2(b)
  {
  }

  lemma Pow2Times256(n: nat)
    ensures Pow2(n + 8) == 256 * Pow2(n)
  {
    assert Pow2(n + 4) == 16 * Pow2(n) by {
      assert Pow2(n + 2) == 4 * Pow2(n);
    }
    assert Pow2(n + 6) == 4 * Pow2(n + 4);
  }

  lemma Pow2At32()
    ensures Pow2(32) == 0x1_0000_0000 && Pow2(31) == 0x8000_0000 && Pow2(30) == 0x4000_0000
  {
    Pow2Times256(0);
    Pow2Times256(8);
    Pow2Times256(16);
    Pow2Times256(24);
    assert Pow2(32) == 2 * Pow2(31) && Pow2(31) == 2 * Pow2(30);
  }

  lemma Pow2At64()
    ensures Pow2(64) == 0x1_0000_0000_0000_0000
  {
    Pow2At32();
    Pow2Times256(32);
    Pow2Times256(40);
    Pow2Times256(48);
    Pow2Times256(56);
  }

  lemma {:induction false} AndSelf(a: nat)
    ensures And(a, a) == a
  {
    if a > 0 {
      AndSelf(a / 2);
    }
  }

  /** The test of ISPOWEROF2. */
  lemma {:induction false} PowerTest(v: nat)
    requires v > 0
    ensures And(v - 1, v) == 0 <==> IsPow2(v)
  {
    if v == 1 {
      assert v == Pow2(0);
    } else if v % 2 == 0 {
      PowerTest(v / 2);
      assert (v - 1) / 2 == v / 2 - 1;
      if k: nat :| v / 2 == Pow2(k) {
        assert v == Pow2(k + 1);
      }
      if k: nat :| v == Pow2(k) {
        assert v / 2 == Pow2(k - 1);
      }
    } else {
      AndSelf(v / 2);
      assert And(v - 1, v) == 2 * And(v / 2, v / 2);
      forall k: nat ensures v != Pow2(k) {
        assert k > 0 ==> Pow2(k) == 2 * Pow2(k - 1);
      }
    }
  }

  lemma Distribute(a: int, b: int, m: int)
    ensures (a + b) * m == a * m + b * m
  {
  }

  lemma AtLeast(d: int, m: nat)
    requires d >= 1
    ensures d * m >= m
  {
    Distribute(d - 1, 1, m);
    assert (d - 1) * m >= 0;
  }

  lemma MulBounds(d: int, m: nat)
    ensures d >= 1 ==> d * m >= m
    ensures d <= 0 ==> d * m <= 0
  {
    if d >= 1 {
      AtLeast(d, m);
    }
  }

  /** Quotient and remainder are unique. */
  lemma DivUnique(q: int, r: int, q': int, r': int, m: nat)
    requires q * m + r == q' * m + r' && 0 <= r < m && 0 <= r' < m
    ensures q == q' && r == r'
  {
    if q < q' {
      Distribute(q, q' - q, m);
      AtLeast(q' - q, m);
    } else if q' < q {
      Distribute(q', q - q', m);
      AtLeast(q - q', m);
    }
  }

  lemma ModIs(x: int, q: int, r: int, m: nat)
    requires x == q * m + r && 0 <= r < m
    ensures x % m == r && x / m == q
  {
    assert x == (x / m) * m + x % m;
    DivUnique(q, r, x / m, x % m, m);
  }

  lemma HalfMod(x: nat, p: nat)
    requires p > 0
    ensures x % (2 * p) == 2 * ((x / 2) % p) + x % 2
  {
    var q, r := (x / 2) / p, (x / 2) % p;
    assert x / 2 == q * p + r;
    assert q * (2 * p) == 2 * (q * p);
    ModIs(x, q, 2 * r + x % 2, 2 * p);
  }

  /** Masking with 2^k - 1 is reduction modulo 2^k. */
  lemma {:induction false} AndMask(x: nat, k: nat)
    ensures And(x, Pow2(k) - 1) == x % Pow2(k)
  {
    if k == 0 {
    } else if x == 0 {
      ModIs(0, 0, 0, Pow2(k));
    } else {
      AndMask(x / 2, k - 1);
      HalfMod(x, Pow2(k - 1));
    }
  }

  lemma {:induction false} AndBit(v: nat, i: nat)
    ensures And(v, Pow2(i)) != 0 <==> Bit(v, i)
  {
    if v == 0 {
      NoBit(i);
    } else if i > 0 {
      AndBit(v / 2, i - 1);
      assert Pow2(i) / 2 == Pow2(i - 1) && Pow2(i) % 2 == 0;
    }
  }

  lemma NoBit(i: nat)
    ensures !Bit(0, i)
  {
  }

  lemma {:induction false} Bounded(v: nat, n: nat)
    requires v < Pow2(n) && forall j :: 0 <= j < n ==> !Bit(v, j)
    ensures v == 0
  {
    if n > 0 {
      assert !Bit(v, 0);
      forall j | 0 <= j < n - 1 ensures !Bit(v / 2, j) {
        assert !Bit(v, j + 1);
      }
      Bounded(v / 2, n - 1);
    }
  }

  /** The highest set bit says between which powers of two a number lies. */
  lemma {:induction false} TopBit(v: nat, idx: nat, n: nat)
    requires v < Pow2(n) && idx < n && Bit(v, idx) && forall j :: idx < j < n ==> !Bit(v, j)
    ensures Pow2(idx) <= v < 2 * Pow2(idx)
  {
    forall j | idx - 1 < j < n - 1 && j >= 0 ensures !Bit(v / 2, j) {
      assert !Bit(v, j + 1);
    }
    if idx > 0 {
      TopBit(v / 2, idx - 1, n - 1);
    } else {
      Bounded(v / 2, n - 1);
    }
  }

  /** The loop of power2: the highest bit that is set. */
  method HighestBit(u: nat) returns (idx: nat)
    requires 0 < u < 0x1_0000_0000
    ensures idx < 32 && Pow2(idx) <= u < 2 * Pow2(idx)
  {
    hide And, Bit, Pow2;
    Pow2At32();
    var i := 0;
    idx := 0;
    ghost var seen := false;
    while i < 32
      invariant i <= 32 && (seen ==> idx < i && Bit(u, idx))
      invariant !seen ==> idx == 0
      invariant forall j :: 0 <= j < i && (seen ==> idx < j) ==> !Bit(u, j)
    {
      AndBit(u, i);
      if And(u, Shl(i)) != 0 {
        idx := i;
        seen := true;
      }
      i := i + 1;
    }
    if !seen {
      Bounded(u, 32);
    }
    TopBit(u, idx, 32);
  }

  /** power2 of comm.c for an `int`.  `1 << 31` wraps to the least `int`; a negative number has its highest
      bit set, and what the code does then, `1 << 32`, is undefined (so is the `v - 1` of the least one). */
  method Power2(v: int) returns (r: Option<int>)
    requires -0x8000_0000 <= v < 0x8000_0000
    ensures r == None <==> v < 0
    ensures v == 0 ==> r == Some(0)
    ensures 1 <= v <= 0x4000_0000 ==> r.Some? && v <= r.value < 2 * v && IsPow2(r.value) && r.value <= 0x4000_0000
    ensures v > 0x4000_0000 ==> r == Some(-0x8000_0000)
  {
    hide Pow2, And, Bit;
    Pow2At32();
    if v == -0x8000_0000 {
      return None;
    }
    var u := v % 0x1_0000_0000;
    if v == 0 || And(u - 1, u) == 0 {
      if v != 0 {
        PowerTest(u);
        AtMost31(u);
      }
      return Some(v);
    }
    PowerTest(u);
    var idx := HighestBit(u);
    if idx + 1 <= 30 {
      Pow2Monotone(idx + 1, 30);
    }
    if idx == 31 {
      return None;
    }
    var p: int := Shl(idx + 1);
    assert IsPow2(p);
    r := Some(if idx == 30 then p - 0x1_0000_0000 else p);
  }

  function Shl(i: nat): (p: nat)
    ensures p == Pow2(i)
  {
    if i == 0 then 1 else 2 * Shl(i - 1)
  }

  /** No negative number but the least one looks like a power of two. */
  lemma AtMost31(u: nat)
    requires IsPow2(u) && u < 0x1_0000_0000
    ensures u <= 0x4000_0000 || u == 0x8000_0000
  {
    Pow2At32();
    var k: nat :| u == Pow2(k);
    if k >= 32 {
      Pow2Monotone(32, k);
    } else if k <= 30 {
      Pow2Monotone(k, 30);
    }
  }

  lemma {:induction false} Pow2Split(k: nat, n: nat)
    requires k <= n
    ensures Pow2(n) == Pow2(n - k) * Pow2(k)
  {
    if k > 0 {
      Pow2Split(k - 1, n - 1);
      Twice(Pow2(n - k), Pow2(k - 1));
    }
  }

  lemma Twice(a: nat, b: nat)
    ensures 2 * (a * b) == a * (2 * b)
  {
  }

  lemma MulAssoc(a: int, b: int, c: int)
    ensures (a * b) * c == a * (b * c)
  {
  }

  /** Reducing by a multiple of the modulus first makes no difference. */
  lemma ModOfMod(x: nat, b: nat, m: nat)
    requires m > 0 && b > 0
    ensures b * m > 0 && (x % (b * m)) % m == x % m
  {
    AtLeast(b, m);
    var q, w := x / (b * m), x % (b * m);
    assert x == q * (b * m) + w;
    MulAssoc(q, b, m);
    assert w == (w / m) * m + w % m;
    Distribute(q * b, w / m, m);
    ModIs(x, q * b + w / m, w % m, m);
  }
}
