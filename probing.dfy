/** Arithmetic of the probe sequence of Quadratic_hash_table.

    The table has 2^n bins. A key's home bin is h; the probe loops of
    member, insert and erase update a running bin with `bin = (bin + i) % capacity`
    for i = 0, 1, 2, ..., so the k-th probe lands on (h + Tri(k)) mod 2^n,
    where Tri(k) = 0 + 1 + ... + k. The main result of this module is that
    Tri(0), ..., Tri(2^n - 1) are pairwise distinct modulo 2^n, hence the
    2^n probes visit every bin exactly once.
 */
module Probing {

  /** 2^n, the capacity `1 << power` of a table built with exponent n. */
  function Pow2(n: nat): (r: nat)
    ensures r >= 1
    ensures n > 0 ==> r % 2 == 0
  {
    if n == 0 then 1 else 2 * Pow2(n - 1)
  }

  /** The triangular number 0 + 1 + ... + k: the offset from the home bin after
      the loop bodies for i = 0..k have run. */
  function Tri(k: nat): nat
  {
    if k == 0 then 0 else Tri(k - 1) + k
  }

  lemma {:induction false} TriClosedForm(k: nat)
    ensures 2 * Tri(k) == k * (k + 1)
  {
    if k > 0 {
      TriClosedForm(k - 1);
      assert 2 * Tri(k) == (k - 1) * k + 2 * k;
    }
  }

  /** The bin visited by the k-th probe (k = 0, 1, ...) from home bin h. */
  function Probe(h: int, k: nat, cap: nat): (r: nat)
    requires cap > 0
    ensures r < cap
  {
    (h + Tri(k)) % cap
  }

  /** C++'s `%` on int: the remainder truncated toward zero, which takes the
      sign of the dividend (Dafny's own `%` is Euclidean). */
  function CRem(a: int, b: int): (r: int)
    requires b > 0
    ensures a >= 0 ==> 0 <= r < b
    ensures a < 0 ==> -b < r <= 0
    ensures (a - r) % b == 0
  {
    if a >= 0 then
      CRemFacts(a, b);
      a % b
    else
      CRemFacts(-a, b);
      -((-a) % b)
  }

  /** The first probe (k = 0) is the home bin itself. */
  lemma ProbeZero(h: int, cap: nat)
    requires 0 <= h < cap
    ensures Probe(h, 0, cap) == h
  {
    ModUnique(h, cap, 0, h);
  }

  /** One pass of `bin = (bin + i) % capacity`: the running bin before pass i
      is the home bin (i = 0) or the probe of pass i - 1, and after it the
      probe of pass i. */
  lemma NextProbe(h: int, i: nat, cap: nat)
    requires 0 <= h < cap
    ensures ((if i == 0 then h else Probe(h, i - 1, cap)) + i) % cap == Probe(h, i, cap)
  {
    if i == 0 {
      ProbeZero(h, cap);
      ModUnique(h + 0, cap, 0, h);
    } else {
      var x := h + Tri(i - 1);
      assert Probe(h, i - 1, cap) == x % cap;
      ModAddMod(x, i, cap);
      assert x + i == h + Tri(i);
    }
  }

  /** A number in [0, b) that differs from a by a multiple of b is a % b. */
  lemma CongruentRemainder(a: int, r: int, b: int)
    requires b > 0 && 0 <= r < b && (a - r) % b == 0
    ensures a % b == r
  {
    var q := ExactQuotient(a - r, b);
    ModUnique(a, b, q, r);
  }

  /** Subtracting b from a multiple of b leaves a multiple of b. */
  lemma ShiftMultiple(x: int, b: int)
    requires b > 0 && x % b == 0
    ensures (x - b) % b == 0
  {
    var q := ExactQuotient(x, b);
    assert x - b == (q - 1) * b;
    ModUnique(x - b, b, q - 1, 0);
  }

  // ----- modular arithmetic -----

  /** For a >= 0 the remainder a % b and its negation both leave a multiple of b. */
  lemma CRemFacts(a: int, b: int)
    requires a >= 0 && b > 0
    ensures (a - a % b) % b == 0 && (-a + a % b) % b == 0
  {
    var q := a / b;
    assert a - a % b == q * b;
    ModUnique(a - a % b, b, q, 0);
    assert -a + a % b == (-q) * b;
    ModUnique(-a + a % b, b, -q, 0);
  }

  /** Quotient and remainder are unique: the fact every other lemma here uses. */
  lemma ModUnique(x: int, m: int, q: int, r: int)
    requires m > 0 && 0 <= r < m && x == q * m + r
    ensures x % m == r && x / m == q
  {
    var d := q - x / m;
    assert d * m == x % m - r;
  }

  /** Two numbers with the same remainder differ by a multiple. */
  lemma ModSameDiff(x: int, y: int, m: int)
    requires m > 0 && x % m == y % m
    ensures (y - x) % m == 0
  {
    assert x == (x / m) * m + x % m;
    assert y == (y / m) * m + y % m;
    assert y - x == (y / m - x / m) * m;
    ModUnique(y - x, m, y / m - x / m, 0);
  }

  /** Reducing the running bin before adding the next step changes nothing:
      (x mod m + i) mod m == (x + i) mod m. */
  lemma ModAddMod(x: int, i: int, m: int)
    requires m > 0
    ensures (x % m + i) % m == (x + i) % m
  {
    var s := x + i;
    assert s == (s / m) * m + s % m;
    assert x == (x / m) * m + x % m;
    assert x % m + i == (s / m - x / m) * m + s % m;
    ModUnique(x % m + i, m, s / m - x / m, s % m);
  }

  /** If 2^n divides x * y and y is odd, then 2^n divides x. */
  lemma {:induction false} OddFactor(x: int, y: int, n: nat)
    requires y % 2 == 1 && (x * y) % Pow2(n) == 0
    ensures x % Pow2(n) == 0
    decreases n
  {
    if n == 0 {
      ModUnique(x, 1, x, 0);
    } else {
      var p := Pow2(n - 1);
      var m := Pow2(n);
      var q := (x * y) / m;
      HalfProduct(x, y, q, p);
      var a := x / 2;
      ModUnique(a * y, p, q, 0);
      OddFactor(a, y, n - 1);
      ScaleMultiple(a, p);
    }
  }

  /** The product of two odd numbers is odd. */
  lemma OddProduct(x: int, y: int)
    requires x % 2 == 1 && y % 2 == 1
    ensures (x * y) % 2 == 1
  {
    var a, b := x / 2, y / 2;
    assert x == 2 * a + 1 && y == 2 * b + 1;
    assert x * y == (2 * a * b + a + b) * 2 + 1;
    ModUnique(x * y, 2, 2 * a * b + a + b, 1);
  }

  /** An even product x * y == 2 q p with odd y has an even x, and halving x
      halves the product. */
  lemma HalfProduct(x: int, y: int, q: int, p: int)
    requires y % 2 == 1 && x * y == q * (2 * p)
    ensures x % 2 == 0 && (x / 2) * y == q * p
  {
    assert x * y == (q * p) * 2;
    ModUnique(x * y, 2, q * p, 0);
    if x % 2 == 1 {
      OddProduct(x, y);
      assert false;
    }
    var a := x / 2;
    assert x == 2 * a;
    assert x * y == (a * y) * 2;
  }

  /** If p divides a, then 2p divides 2a. */
  lemma ScaleMultiple(a: int, p: int)
    requires p > 0 && a % p == 0
    ensures (2 * a) % (2 * p) == 0
  {
    var c := a / p;
    assert a == c * p;
    assert 2 * a == c * (2 * p);
    ModUnique(2 * a, 2 * p, c, 0);
  }

  /** The gap between two distinct triangular offsets below 2^n is not a
      multiple of 2^n. Writing 2 (Tri(b) - Tri(a)) == (b - a)(a + b + 1), one
      factor is odd, so 2^(n+1) would have to divide the other, which lies
      strictly between 0 and 2^(n+1). */
  lemma TriGapNotMultiple(n: nat, a: nat, b: nat)
    requires a < b < Pow2(n)
    ensures (Tri(b) - Tri(a)) % Pow2(n) != 0
  {
    if (Tri(b) - Tri(a)) % Pow2(n) == 0 {
      var u, v := b - a, a + b + 1;
      GapMultipleDoubled(n, a, b);
      assert Pow2(n + 1) == 2 * Pow2(n);
      assert u + v == 2 * b + 1;
      ModUnique(u + v, 2, b, 1);
      ProductNotMultiple(u, v, n + 1);
      assert false;
    }
  }

  /** If 2^n divides Tri(b) - Tri(a), then 2^(n+1) divides (b - a)(a + b + 1). */
  lemma GapMultipleDoubled(n: nat, a: nat, b: nat)
    requires a < b && (Tri(b) - Tri(a)) % Pow2(n) == 0
    ensures (b - a) * (a + b + 1) % Pow2(n + 1) == 0
  {
    var m := Pow2(n);
    var d := Tri(b) - Tri(a);
    TriGapProduct(a, b);
    var q := ExactQuotient(d, m);
    DoubleMultiple((b - a) * (a + b + 1), d, q, m);
  }

  /** A multiple of m is its quotient times m. */
  lemma ExactQuotient(d: int, m: int) returns (q: int)
    requires m > 0 && d % m == 0
    ensures d == q * m
  {
    q := d / m;
    assert d == (d / m) * m + d % m;
  }

  /** Two positive numbers below 2^n whose sum is odd: 2^n does not divide
      their product, since one of them is odd and the other too small. */
  lemma ProductNotMultiple(u: int, v: int, n: nat)
    requires 0 < u < Pow2(n) && 0 < v < Pow2(n) && (u + v) % 2 == 1
    ensures (u * v) % Pow2(n) != 0
  {
    if u % 2 == 1 {
      OddTimesSmall(v, u, n);
      assert v * u == u * v;
    } else {
      OtherOdd(u, v);
      OddTimesSmall(u, v, n);
    }
  }

  /** An odd factor cannot make a number in (0, 2^n) a multiple of 2^n. */
  lemma OddTimesSmall(x: int, y: int, n: nat)
    requires y % 2 == 1 && 0 < x < Pow2(n)
    ensures (x * y) % Pow2(n) != 0
  {
    if (x * y) % Pow2(n) == 0 {
      OddFactor(x, y, n);
      ModUnique(x, Pow2(n), 0, x);
      assert false;
    }
  }

  /** An even number plus v is odd only when v is odd. */
  lemma OtherOdd(u: int, v: int)
    requires u % 2 == 0 && (u + v) % 2 == 1
    ensures v % 2 == 1
  {
    assert u == 2 * (u / 2) + u % 2;
    assert u + v == 2 * ((u + v) / 2) + (u + v) % 2;
    ModUnique(v, 2, (u + v) / 2 - u / 2, 1);
  }

  lemma TriGapProduct(a: nat, b: nat)
    requires a < b
    ensures 2 * (Tri(b) - Tri(a)) == (b - a) * (a + b + 1)
  {
    TriClosedForm(a);
    TriClosedForm(b);
    assert (b - a) * (a + b + 1) == b * (b + 1) - a * (a + 1);
  }

  /** If p == 2 d and d == q 2^n, then 2^(n+1) divides p. */
  lemma DoubleMultiple(p: int, d: int, q: int, m: int)
    requires m > 0 && p == 2 * d && d == q * m
    ensures p % (2 * m) == 0
  {
    assert p == q * (2 * m);
    ModUnique(p, 2 * m, q, 0);
  }

  /** Distinct probe indices below the capacity 2^n visit distinct bins. */
  lemma ProbeInjective(h: int, n: nat, a: nat, b: nat)
    requires a < Pow2(n) && b < Pow2(n) && a != b
    ensures Probe(h, a, Pow2(n)) != Probe(h, b, Pow2(n))
  {
    var m := Pow2(n);
    if Probe(h, a, m) == Probe(h, b, m) {
      var lo, hi := if a < b then a else b, if a < b then b else a;
      ModSameDiff(h + Tri(lo), h + Tri(hi), m);
      assert (h + Tri(hi)) - (h + Tri(lo)) == Tri(hi) - Tri(lo);
      TriGapNotMultiple(n, lo, hi);
      assert false;
    }
  }

  // ----- counting: an injection of [0, 2^n) into itself is onto -----

  /** The bin indices 0 .. k-1. */
  function Below(k: nat): set<nat>
  {
    if k == 0 then {} else Below(k - 1) + {k - 1}
  }

  lemma {:induction false} BelowMembers(k: nat)
    ensures forall i: nat :: i in Below(k) <==> i < k
  {
    if k > 0 {
      BelowMembers(k - 1);
    }
  }

  function ProbeImage(h: int, n: nat, k: nat): set<nat>
  {
    set j: nat | j < k && j < Pow2(n) :: Probe(h, j, Pow2(n))
  }

  lemma {:induction false} BelowCard(k: nat)
    ensures |Below(k)| == k
  {
    if k > 0 {
      BelowMembers(k - 1);
      BelowCard(k - 1);
    }
  }

  lemma {:induction false} ProbeImageCard(h: int, n: nat, k: nat)
    requires k <= Pow2(n)
    ensures |ProbeImage(h, n, k)| == k
  {
    if k > 0 {
      var m := Pow2(n);
      ProbeImageCard(h, n, k - 1);
      var p := Probe(h, k - 1, m);
      assert ProbeImage(h, n, k) == ProbeImage(h, n, k - 1) + {p};
      if p in ProbeImage(h, n, k - 1) {
        var j: nat :| j < k - 1 && Probe(h, j, m) == p;
        ProbeInjective(h, n, j, k - 1);
      }
    }
  }

  lemma {:induction false} SubsetCard(a: set<nat>, b: set<nat>)
    requires a <= b
    ensures |a| <= |b|
    decreases a
  {
    if a != {} {
      var x :| x in a;
      SubsetCard(a - {x}, b - {x});
    }
  }

  /** Every bin of a table with 2^n bins is reached by one of the first 2^n
      probes from any home bin: the probe loops scan the whole table. */
  lemma ProbeCovers(h: int, n: nat, bin: nat) returns (k: nat)
    requires bin < Pow2(n)
    ensures k < Pow2(n) && Probe(h, k, Pow2(n)) == bin
  {
    var m := Pow2(n);
    var image := ProbeImage(h, n, m);
    if bin !in image {
      ProbeImageCard(h, n, m);
      BelowCard(m);
      BelowMembers(m);
      assert image <= Below(m) - {bin};
      SubsetCard(image, Below(m) - {bin});
      assert false;
    }
    k :| k < m && Probe(h, k, m) == bin;
  }
}
