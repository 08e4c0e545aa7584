/** Integer arithmetic that the reshape logic relies on: Python's truncating
    `int(a / b)` and the product of a list of dimensions. */
module ShapeArith {

  function Abs(x: int): nat
  {
    if x < 0 then -x else x
  }

  /** `int(a / b)` in Python for exact integers: the quotient rounded toward
      zero. Dafny's own `/` is Euclidean, so the sign is handled explicitly.
      The contract pins the result down: `q * b` lies between 0 and `a`, and
      what is left over is smaller than `|b|`. */
  function TruncDiv(a: int, b: int): (q: int)
    requires b != 0
    ensures 0 <= a ==> 0 <= q * b <= a
    ensures a < 0 ==> a <= q * b <= 0
    ensures Abs(a - q * b) < Abs(b)
  {
    var m := Abs(a) / Abs(b);
    DivBounds(Abs(a), Abs(b));
    SignedProduct(m, b);
    if (a < 0) == (b < 0) then m else -m
  }

  /** Euclidean division of naturals leaves a remainder below the divisor. */
  lemma DivBounds(x: nat, y: nat)
    requires y > 0
    ensures 0 <= (x / y) * y <= x < (x / y) * y + y
  {
  }

  lemma SignedProduct(m: nat, b: int)
    ensures m * Abs(b) == (if b < 0 then -(m * b) else m * b)
    ensures (-(m as int)) * b == -(m * b)
  {
  }

  /** Truncating and Euclidean division agree on a non-negative dividend and
      a positive divisor, and on the negations of both. */
  lemma TruncDivNonNegative(a: int, b: int)
    requires 0 <= a && 0 < b
    ensures TruncDiv(a, b) == a / b
    ensures TruncDiv(-a, -b) == a / b
  {
  }

  /** Negating both operands leaves the truncated quotient unchanged. */
  lemma TruncDivNegated(a: int, b: int)
    requires b != 0
    ensures TruncDiv(a, b) == TruncDiv(-a, -b)
  {
  }

  /** `int(-c / -p) * p` gives back `c` exactly when `p` divides `c`; this is
      the single-wildcard resolution of the 3D/4D branches. */
  lemma TruncDivNegatedExact(c: int, p: int)
    requires p != 0
    ensures TruncDiv(-c, -p) * p == c <==> c % p == 0
  {
    var t := TruncDiv(-c, -p);
    NegatedRemainder(c, p, t);
    if c % p == 0 {
      CloseMultiple(c, p, t);
    } else if t * p == c {
      MultipleMod(t, p);
    }
  }

  /** What `TruncDiv(-c, -p)`'s contract says, restated for `t * p`. */
  lemma NegatedRemainder(c: int, p: int, t: int)
    requires p != 0 && t == TruncDiv(-c, -p)
    ensures Abs(t * p - c) < Abs(p)
  {
    assert t * (-p) == -(t * p);
  }

  /** A multiple of `p` that is closer to `c` than `|p|`, when `p` divides
      `c`, is `c` itself. */
  lemma CloseMultiple(c: int, p: int, t: int)
    requires p != 0 && c % p == 0 && Abs(t * p - c) < Abs(p)
    ensures t * p == c
  {
    var d := c / p;
    assert c == d * p;
    Distribute(t, d, p);
    if t != d {
      AbsProduct(t - d, p);
    }
  }

  lemma Distribute(t: int, d: int, p: int)
    ensures t * p - d * p == (t - d) * p
  {
  }

  lemma AbsProduct(x: int, y: int)
    requires x != 0
    ensures Abs(x * y) >= Abs(y)
  {
    if x < 0 {
      assert x * y == -((-x) * y);
      NatScale(-x, Abs(y));
    } else {
      NatScale(x, Abs(y));
    }
    if y < 0 {
      assert Abs(x) * Abs(y) == Abs(x) * (-y);
    }
  }

  lemma NatScale(x: nat, y: nat)
    requires x >= 1
    ensures x * y >= y
  {
  }

  /** A multiple of `b` leaves no remainder. */
  lemma MultipleMod(t: int, b: int)
    requires b != 0
    ensures (t * b) % b == 0
  {
    var r := (t * b) % b;
    var d := (t * b) / b;
    assert t * b == d * b + r;
    assert r == (t - d) * b;
    if t != d {
      AbsProduct(t - d, b);
    }
  }

  /** Product of the entries, as `np.prod` and the running `newsize *= dim`
      compute it; the product of the empty list is 1. */
  function Product(s: seq<int>): int
  {
    if |s| == 0 then 1 else Product(s[..|s| - 1]) * s[|s| - 1]
  }

  lemma {:induction false} ProductAppend(a: seq<int>, b: seq<int>)
    ensures Product(a + b) == Product(a) * Product(b)
    decreases |b|
  {
    if |b| == 0 {
      assert a + b == a;
    } else {
      var c := a + b;
      assert c[..|c| - 1] == a + b[..|b| - 1];
      ProductAppend(a, b[..|b| - 1]);
    }
  }

  lemma ProductSingleton(x: int)
    ensures Product([x]) == x
  {
    assert [x][..0] == [];
  }

  /** The product splits around any position. */
  lemma ProductAround(s: seq<int>, k: nat)
    requires k < |s|
    ensures Product(s) == Product(s[..k]) * s[k] * Product(s[k + 1..])
  {
    assert s == s[..k] + [s[k]] + s[k + 1..];
    ProductAppend(s[..k] + [s[k]], s[k + 1..]);
    ProductAppend(s[..k], [s[k]]);
    ProductSingleton(s[k]);
  }

  /** Replacing the entry at `k` by `v` scales the product of the others by
      `v`. */
  lemma ProductUpdate(s: seq<int>, k: nat, v: int)
    requires k < |s|
    ensures Product(s[k := v]) == v * (Product(s[..k]) * Product(s[k + 1..]))
  {
    var t := s[k := v];
    ProductAround(t, k);
    assert t[..k] == s[..k] && t[k + 1..] == s[k + 1..];
  }

  /** A product is zero exactly when one of the entries is zero. */
  lemma {:induction false} ProductZero(s: seq<int>)
    ensures Product(s) == 0 <==> 0 in s
    decreases |s|
  {
    if |s| > 0 {
      var init := s[..|s| - 1];
      ProductZero(init);
      assert s == init + [s[|s| - 1]];
    }
  }
}
