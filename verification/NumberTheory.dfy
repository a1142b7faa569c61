/** The number theory behind rsa.php: congruences, Euclid's lemma, Fermat's little theorem, and the
    decryption identity for a product of two primes. */
module NumberTheory {
  import opened Powers

  // ----- Divisibility and congruence -----

  ghost predicate Divides(m: int, x: int) {
    exists k: int :: x == k * m
  }

  ghost predicate Congruent(a: int, b: int, m: int) {
    Divides(m, a - b)
  }

  lemma DividesProduct(m: int, k: int)
    ensures Divides(m, k * m)
  {
  }

  lemma DividesSum(m: int, x: int, y: int)
    requires Divides(m, x) && Divides(m, y)
    ensures Divides(m, x + y) && Divides(m, x - y)
  {
    var i :| x == i * m;
    var j :| y == j * m;
    assert x + y == (i + j) * m && x - y == (i - j) * m;
  }

  lemma DividesMultiple(m: int, x: int, y: int)
    requires Divides(m, x)
    ensures Divides(m, x * y)
  {
    var i :| x == i * m;
    assert x * y == (i * y) * m by {
      assert (i * m) * y == (i * y) * m;
    }
  }

  lemma CongruentSymmetric(a: int, b: int, m: int)
    requires Congruent(a, b, m)
    ensures Congruent(b, a, m)
  {
    DividesProduct(m, 0);
    DividesSum(m, 0 * m, a - b);
  }

  lemma CongruentTransitive(a: int, b: int, c: int, m: int)
    requires Congruent(a, b, m) && Congruent(b, c, m)
    ensures Congruent(a, c, m)
  {
    DividesSum(m, a - b, b - c);
    assert (a - b) + (b - c) == a - c;
  }

  lemma CongruentProduct(a: int, b: int, c: int, d: int, m: int)
    requires Congruent(a, b, m) && Congruent(c, d, m)
    ensures Congruent(a * c, b * d, m)
  {
    DividesMultiple(m, a - b, c);
    DividesMultiple(m, c - d, b);
    DividesSum(m, (a - b) * c, (c - d) * b);
    assert (a - b) * c + (c - d) * b == a * c - b * d;
  }

  lemma CongruentMod(a: int, m: int)
    requires m > 0
    ensures Congruent(a, a % m, m)
  {
    assert a - a % m == (a / m) * m;
  }

  /** Numbers in range are congruent only if equal. */
  lemma CongruentInRange(a: int, b: int, m: int)
    requires 0 <= a < m && 0 <= b < m && Congruent(a, b, m)
    ensures a == b
  {
    var k :| a - b == k * m;
    SmallMultiple(k, m);
  }

  lemma SmallMultiple(k: int, m: int)
    requires m > 0 && -m < k * m < m
    ensures k == 0
  {
    MulCancelLess(k, 1, m);
    MulCancelLess(-1, k, m);
  }

  /** Equal remainders and congruence are the same. */
  lemma CongruentMeansEqualMod(a: int, b: int, m: int)
    requires m > 0 && Congruent(a, b, m)
    ensures a % m == b % m
  {
    CongruentMod(a, m);
    CongruentSymmetric(a, a % m, m);
    CongruentMod(b, m);
    CongruentTransitive(a % m, a, b, m);
    CongruentTransitive(a % m, b, b % m, m);
    CongruentInRange(a % m, b % m, m);
  }

  // ----- Powers -----

  function Pow(b: int, e: nat): int {
    if e == 0 then 1 else b * Pow(b, e - 1)
  }

  lemma {:induction false} PowAdd(b: int, m: nat, n: nat)
    ensures Pow(b, m + n) == Pow(b, m) * Pow(b, n)
    decreases m
  {
    if m > 0 {
      PowAdd(b, m - 1, n);
      assert b * (Pow(b, m - 1) * Pow(b, n)) == (b * Pow(b, m - 1)) * Pow(b, n);
    }
  }

  lemma {:induction false} PowPow(b: int, m: nat, n: nat)
    ensures Pow(Pow(b, m), n) == Pow(b, m * n)
    decreases n
  {
    if n == 0 {
      assert m * 0 == 0;
    } else {
      PowPow(b, m, n - 1);
      PowAdd(b, m, m * (n - 1));
      assert m + m * (n - 1) == m * n;
    }
  }

  lemma {:induction false} PowCongruent(a: int, b: int, e: nat, m: int)
    requires Congruent(a, b, m)
    ensures Congruent(Pow(a, e), Pow(b, e), m)
    decreases e
  {
    if e == 0 {
      DividesProduct(m, 0);
    } else {
      PowCongruent(a, b, e - 1, m);
      CongruentProduct(a, b, Pow(a, e - 1), Pow(b, e - 1), m);
    }
  }

  // ----- Primes and Euclid's lemma -----

  ghost predicate Prime(p: int) {
    p >= 2 && forall d: int :: 1 < d < p ==> !Divides(d, p)
  }

  /** A common divisor that is a combination of both numbers. */
  lemma {:induction false} Bezout(a: nat, b: nat) returns (g: int, u: int, v: int)
    requires a > 0
    ensures g > 0 && g == u * a + v * b && Divides(g, a) && Divides(g, b)
    decreases b
  {
    if b == 0 {
      g, u, v := a, 1, 0;
      assert a == 1 * a && b == 0 * a;
    } else {
      var q, r := a / b, a % b;
      var u', v';
      g, u', v' := Bezout(b, r);
      DivisionStep(a, b, q, r, g);
      u, v := v', u' - q * v';
      assert v' * (a - q * b) == v' * a - (q * v') * b;
      assert (u' - q * v') * b == u' * b - (q * v') * b;
    }
  }

  lemma DivisionStep(a: int, b: int, q: int, r: int, g: int)
    requires a == q * b + r && Divides(g, b) && Divides(g, r)
    ensures Divides(g, a)
  {
    DividesMultiple(g, b, q);
    assert b * q == q * b;
    DividesSum(g, b * q, r);
  }

  /** A number in 1..p has no factor in common with a prime p unless p divides it. */
  lemma PrimeCoprime(p: int, a: nat) returns (u: int, v: int)
    requires Prime(p) && !Divides(p, a)
    ensures u * p + v * a == 1
  {
    var g;
    g, u, v := Bezout(p, a);
    DivisorBound(g, p);
  }

  lemma DivisorBound(g: int, p: int)
    requires g > 0 && p > 0 && Divides(g, p)
    ensures g <= p
  {
    var k :| p == k * g;
    MulCancelLess(0, k, g);
  }

  lemma EuclidsLemma(p: int, a: nat, b: int)
    requires Prime(p) && Divides(p, a * b)
    ensures Divides(p, a) || Divides(p, b)
  {
    hide Prime, Divides;
    if !Divides(p, a) {
      var u, v := PrimeCoprime(p, a);
      DividesProduct(p, u * b);
      DividesMultiple(p, a * b, v);
      DividesSum(p, (u * b) * p, (a * b) * v);
      CombinationTimes(u, p, v, a, b);
    }
  }

  lemma CombinationTimes(u: int, p: int, v: int, a: int, b: int)
    requires u * p + v * a == 1
    ensures (u * b) * p + (a * b) * v == b
  {
    assert (u * p + v * a) * b == (u * p) * b + (v * a) * b;
    assert (u * p) * b == (u * b) * p && (v * a) * b == (a * b) * v;
  }

  lemma NotMultiple(p: int, k: int)
    requires 0 < k < p
    ensures !Divides(p, k)
  {
    if j :| k == j * p {
      SmallMultiple(j, p);
    }
  }

  // ----- Binomials and Fermat -----

  function Choose(n: nat, k: nat): nat {
    if k == 0 then 1 else if n == 0 then 0 else Choose(n - 1, k - 1) + Choose(n - 1, k)
  }

  lemma {:induction false} ChooseFactor(n: nat, k: nat)
    requires n > 0 && k > 0
    ensures k * Choose(n, k) == n * Choose(n - 1, k - 1)
    decreases n
  {
    var c := Choose(n - 1, k - 1);
    assert Choose(n, k) == c + Choose(n - 1, k);
    if n == 1 {
      assert Choose(0, k) == 0;
      if k > 1 {
        assert k * 0 == 0;
      }
    } else {
      ChooseFactor(n - 1, k);
      if k == 1 {
        assert Choose(n - 1, 0) == 1;
      } else {
        ChooseFactor(n - 1, k - 1);
        Rearrange(k, c, Choose(n - 1, k), n, Choose(n - 2, k - 1), Choose(n - 2, k - 2));
      }
    }
  }

  lemma Rearrange(k: int, c: int, c': int, n: int, d: int, d': int)
    requires k * c' == (n - 1) * d && (k - 1) * c == (n - 1) * d' && c == d' + d
    ensures k * (c + c') == n * c
  {
    assert k * (c + c') == c + (k - 1) * c + k * c';
    assert (n - 1) * d' + (n - 1) * d == (n - 1) * c;
  }

  lemma {:induction false} ChooseBeyond(n: nat, k: nat)
    requires k > n
    ensures Choose(n, k) == 0
  {
    if n > 0 {
      ChooseBeyond(n - 1, k - 1);
      ChooseBeyond(n - 1, k);
    }
  }

  lemma {:induction false} ChooseAll(n: nat)
    ensures Choose(n, n) == 1
  {
    if n > 0 {
      ChooseAll(n - 1);
      ChooseBeyond(n - 1, n);
    }
  }

  lemma PrimeDividesChoose(p: int, k: nat)
    requires Prime(p) && 0 < k < p
    ensures Divides(p, Choose(p, k))
  {
    ChooseFactor(p, k);
    DividesProduct(p, Choose(p - 1, k - 1));
    assert Choose(p - 1, k - 1) * p == p * Choose(p - 1, k - 1);
    EuclidsLemma(p, k, Choose(p, k));
    NotMultiple(p, k);
  }

  /** The first m + 1 terms of the expansion of (a + 1)^n. */
  function BinomialSum(n: nat, a: int, m: nat): int {
    Choose(n, m) * Pow(a, m) + if m == 0 then 0 else BinomialSum(n, a, m - 1)
  }

  lemma {:induction false} BinomialStep(n: nat, a: int, m: nat)
    requires m > 0
    ensures BinomialSum(n + 1, a, m) == BinomialSum(n, a, m) + a * BinomialSum(n, a, m - 1)
    decreases m
  {
    var c, d := Choose(n, m - 1), Choose(n, m);
    assert Choose(n + 1, m) == c + d;
    assert (c + d) * Pow(a, m) == c * Pow(a, m) + d * Pow(a, m);
    assert c * (a * Pow(a, m - 1)) == a * (c * Pow(a, m - 1));
    if m > 1 {
      BinomialStep(n, a, m - 1);
      assert a * (c * Pow(a, m - 1) + BinomialSum(n, a, m - 2))
          == a * (c * Pow(a, m - 1)) + a * BinomialSum(n, a, m - 2);
    }
  }

  lemma {:induction false} Binomial(n: nat, a: int)
    ensures BinomialSum(n, a, n) == Pow(a + 1, n)
  {
    if n > 0 {
      Binomial(n - 1, a);
      BinomialStep(n - 1, a, n);
      ChooseBeyond(n - 1, n);
      assert 0 * Pow(a, n) == 0;
    }
  }

  lemma {:induction false} MiddleVanishes(p: int, a: int, m: nat)
    requires Prime(p) && m < p
    ensures Congruent(BinomialSum(p, a, m), 1, p)
    decreases m
  {
    if m == 0 {
      DividesProduct(p, 0);
    } else {
      MiddleVanishes(p, a, m - 1);
      PrimeDividesChoose(p, m);
      DividesMultiple(p, Choose(p, m), Pow(a, m));
      DividesSum(p, Choose(p, m) * Pow(a, m), BinomialSum(p, a, m - 1) - 1);
    }
  }

  /** Fermat's little theorem, for every base. */
  lemma {:induction false} Fermat(p: int, a: nat)
    requires Prime(p)
    ensures Congruent(Pow(a, p), a, p)
    decreases a
  {
    if a == 0 {
      assert Pow(0, p) == 0 * Pow(0, p - 1) == 0;
      DividesProduct(p, 0);
    } else {
      Fermat(p, a - 1);
      Binomial(p, a - 1);
      MiddleVanishes(p, a - 1, p - 1);
      ChooseAll(p);
      assert BinomialSum(p, a - 1, p) == 1 * Pow(a - 1, p) + BinomialSum(p, a - 1, p - 1);
      DividesSum(p, Pow(a - 1, p) - (a - 1), BinomialSum(p, a - 1, p - 1) - 1);
    }
  }

  // ----- RSA -----

  lemma {:induction false} FermatExponent(p: int, x: nat, k: nat)
    requires Prime(p) && k * (p - 1) >= 0
    ensures Congruent(Pow(x, 1 + k * (p - 1)), x, p)
    decreases k
  {
    hide Congruent, Prime;
    if k == 0 {
      FirstPower(x, p);
    } else {
      var e := OneLess(p, k);
      FermatExponent(p, x, k - 1);
      PowAdd(x, e, p - 1);
      CongruentReflexive(Pow(x, p - 1), p);
      CongruentProduct(Pow(x, e), x, Pow(x, p - 1), Pow(x, p - 1), p);
      assert x * Pow(x, p - 1) == Pow(x, p);
      Fermat(p, x);
      CongruentTransitive(Pow(x, 1 + k * (p - 1)), Pow(x, p), x, p);
    }
  }

  lemma OneLess(p: int, k: nat) returns (e: nat)
    requires Prime(p) && k > 0
    ensures e == 1 + (k - 1) * (p - 1) && (k - 1) * (p - 1) >= 0 && p >= 2
    ensures 1 + k * (p - 1) == e + (p - 1)
  {
    AtLeastTwo(p);
    hide Prime;
    OneTimesLess(k, p - 1);
    e := 1 + (k - 1) * (p - 1);
  }

  lemma AtLeastTwo(p: int)
    requires Prime(p)
    ensures p >= 2
  {
  }

  lemma OneTimesLess(k: nat, m: nat)
    requires k > 0
    ensures k * m == (k - 1) * m + m && (k - 1) * m >= 0
  {
  }

  lemma FirstPower(x: nat, p: int)
    requires Prime(p)
    ensures Congruent(Pow(x, 1 + 0 * (p - 1)), x, p)
  {
    assert 0 * (p - 1) == 0;
    assert Pow(x, 1) == x * Pow(x, 0) == x;
    DividesProduct(p, 0);
  }

  lemma CongruentReflexive(a: int, m: int)
    ensures Congruent(a, a, m)
  {
    DividesProduct(m, 0);
  }

  lemma BothPrimesDivide(p: nat, q: nat, y: int)
    requires Prime(p) && Prime(q) && p != q && Divides(p, y) && Divides(q, y)
    ensures Divides(p * q, y)
  {
    var i :| y == i * p;
    assert p * i == i * p;
    DistinctPrimes(p, q);
    EuclidsLemma(q, p, i);
    var j :| i == j * q;
    MulAssociates(j, q, p);
    assert q * p == p * q;
    DividesProduct(p * q, j);
  }

  lemma DistinctPrimes(p: nat, q: nat)
    requires Prime(p) && Prime(q) && p != q
    ensures !Divides(q, p)
  {
    if Divides(q, p) {
      DivisorBound(q, p);
    }
  }

  /** Raising to an exponent that is 1 modulo (p-1)(q-1) gives back every number below pq, whether
      or not it is coprime to pq. */
  lemma RsaIdentity(p: nat, q: nat, x: nat, n: nat)
    requires Prime(p) && Prime(q) && p != q && x < p * q
    requires n > 0 && Congruent(n, 1, (p - 1) * (q - 1))
    ensures Pow(x, n) % (p * q) == x
  {
    hide Pow;
    var a, b := ExponentForBoth(p, q, n);
    FermatExponent(p, x, a);
    FermatExponent(q, x, b);
    BothPrimesDivide(p, q, Pow(x, n) - x);
    CongruentMeansEqualMod(Pow(x, n), x, p * q);
    SmallMod(x, p * q);
  }

  lemma ExponentForBoth(p: nat, q: nat, n: nat) returns (a: nat, b: nat)
    requires p >= 2 && q >= 2 && n > 0 && Congruent(n, 1, (p - 1) * (q - 1))
    ensures a * (p - 1) >= 0 && n == 1 + a * (p - 1)
    ensures b * (q - 1) >= 0 && n == 1 + b * (q - 1)
  {
    var m := (p - 1) * (q - 1);
    var k :| n - 1 == k * m;
    MulCancelLess(-1, k, m);
    a, b := k * (q - 1), k * (p - 1);
    MulAssociates(k, q - 1, p - 1);
    MulAssociates(k, p - 1, q - 1);
  }

  lemma SmallMod(x: nat, m: nat)
    requires x < m
    ensures x % m == x
  {
  }
}
