/** Key arithmetic and modular powers of rsa.php. Random draws are parameters; integers are
    unbounded; in double precision the same powers come out for every modulus that can occur. */
module RsaKeys {
  import opened Powers
  import opened NumberTheory
  import opened PrimeTable

  // ----- The remainder -----

  /** mo (rsa.php): `$g - $l * floor($g / $l)`. */
  function Mo(g: nat, l: nat): (r: nat)
    requires l > 0
    ensures r < l && Congruent(r, g, l)
  {
    assert g - (l * (g / l)) == g % l;
    CongruentMod(g, l);
    CongruentSymmetric(g, g % l, l);
    g - (l * (g / l))
  }

  // ----- The remainder in floating point -----

  /** The integers up to here are exact doubles. */
  const EXACT: int := 0x20_0000_0000_0000

  /** Rounding to double precision as far as it matters here: monotone, exact on integers up to 2^53, and never above a
      quotient by more than half a unit in the last place. */
  ghost predicate Rounds(round: real -> real) {
    && (forall x: real, y: real :: x <= y ==> round(x) <= round(y))
    && (forall x: real :: 0.0 <= x <= EXACT as real && x == x.Floor as real ==> round(x) == x)
    && (forall x: real :: 0.0 <= x ==> round(x) <= x + (if x < 1.0 then 1.0 else x) / EXACT as real)
  }

  /** Exact arithmetic is one such rounding. */
  lemma ExactRounds()
    ensures Rounds(x => x)
  {
  }

  /** mo with every operation rounded. */
  function MoRounded(round: real -> real, g: real, l: real): real
    requires l != 0.0
  {
    Reduced(round, g, l, round(g / l).Floor as real)
  }

  /** What the remainder leaves once the integer part of the quotient is there. */
  function Reduced(round: real -> real, g: real, l: real, quotient: real): real {
    round(g - round(l * quotient))
  }

  lemma RoundsInteger(round: real -> real, n: nat)
    requires Rounds(round) && n <= EXACT
    ensures round(n as real) == n as real
  {
  }

  /** Where a quotient lies. */
  lemma QuotientBetween(g: real, q: real, r: real, d: real)
    requires d > 0.0 && 0.0 <= r <= d - 1.0 && g == q * d + r
    ensures q <= g / d <= q + 1.0 - 1.0 / d
  {
    QuotientParts(q, r, d);
    FractionBound(r, d);
  }

  lemma RealParts(g: nat, l: nat)
    requires l > 0
    ensures g / l <= g && 0 <= g % l <= l - 1 && g as real == (g / l) as real * l as real + (g % l) as real
  {
    var q, r := g / l, g % l;
    assert g == q * l + r;
    AtLeastOnce(q, l);
    RealProduct(q, l);
  }

  lemma AtLeastOnce(q: nat, l: nat)
    requires l > 0
    ensures q <= q * l
  {
  }

  lemma QuotientParts(q: real, r: real, d: real)
    requires d > 0.0 && r >= 0.0
    ensures (q * d + r) / d == q + r / d && r / d >= 0.0
  {
    var t := 1.0 / d;
    assert t > 0.0 && t * d == 1.0;
    assert (q * d + r) * t == q * (d * t) + r * t;
    assert r / d == r * t && (q * d + r) / d == (q * d + r) * t;
    assert r * t >= 0.0;
  }

  /** A rounded quotient of integers has the right integer part. */
  lemma FloatQuotientExact(round: real -> real, g: nat, l: nat)
    requires Rounds(round) && 0 < l < EXACT && g < EXACT
    ensures round(g as real / l as real).Floor == g / l
  {
    hide Rounds;
    var q := g / l;
    RealParts(g, l);
    QuotientBetween(g as real, q as real, (g % l) as real, l as real);
    HalfUnit(g as real, l as real, g as real / l as real);
    RoundsInteger(round, q);
    RoundedFloor(round, q, g as real / l as real, 1.0 / l as real);
  }

  /** Rounding does not carry a number across the integer above it. */
  lemma RoundedFloor(round: real -> real, q: nat, x: real, gap: real)
    requires Rounds(round) && q as real <= x <= q as real + 1.0 - gap && round(q as real) == q as real
    requires (if x < 1.0 then 1.0 else x) / EXACT as real < gap
    ensures round(x).Floor == q
  {
    RoundedBetween(round, q as real, x);
    hide Rounds;
  }

  lemma RoundedBetween(round: real -> real, q: real, x: real)
    requires Rounds(round) && 0.0 <= q <= x && round(q) == q
    ensures q <= round(x) <= x + (if x < 1.0 then 1.0 else x) / EXACT as real
  {
  }

  lemma FractionBound(r: real, l: real)
    requires l > 0.0 && r <= l - 1.0
    ensures r / l <= 1.0 - 1.0 / l
  {
    var t := 1.0 / l;
    assert t > 0.0 && t * l == 1.0;
    assert r / l == r * t;
    assert (l - 1.0 - r) * t >= 0.0;
  }

  /** Half a unit in the last place of a quotient is less than one part of the divisor. */
  lemma HalfUnit(g: real, l: real, x: real)
    requires 0.0 <= g < EXACT as real && 0.0 < l < EXACT as real && x == g / l
    ensures (if x < 1.0 then 1.0 else x) / EXACT as real < 1.0 / l
  {
    var t, e := 1.0 / l, EXACT as real;
    assert t > 0.0 && t * l == 1.0 && x == g * t;
    assert (e - g) * t > 0.0 && (e - l) * t > 0.0;
    assert x < e * t && 1.0 < e * t;
  }

  lemma RemainderParts(g: nat, l: nat)
    requires l > 0
    ensures 0 <= l * (g / l) <= g && Mo(g, l) == g - l * (g / l)
  {
    assert g == l * (g / l) + g % l;
    assert l * (g / l) >= 0;
  }

  /** Below 2^53 the rounded remainder is the remainder. */
  lemma MoRoundedIsMo(round: real -> real, g: nat, l: nat)
    requires Rounds(round) && 0 < l < EXACT && g < EXACT
    ensures MoRounded(round, g as real, l as real) == Mo(g, l) as real
  {
    hide Rounds, Mo, Congruent;
    FloatQuotientExact(round, g, l);
    RemainderParts(g, l);
    var q := g / l;
    var p := l * q;
    RealProduct(l, q);
    assert 0 <= p <= g;
    RoundsInteger(round, p);
    RoundsInteger(round, g - p);
    assert g as real - p as real == (g - p) as real;
    ReducedIs(round, g as real, l as real, q as real, p as real);
    hide Reduced;
  }

  lemma ReducedIs(round: real -> real, g: real, l: real, q: real, p: real)
    requires l * q == p && round(p) == p && round(g - p) == g - p
    ensures Reduced(round, g, l, q) == g - p
  {
  }

  lemma RealProduct(a: nat, b: nat)
    ensures a as real * b as real == (a * b) as real
  {
  }

  /** Products of residues are exact doubles for every modulus up to 94906266, */
  lemma ProductsAreExact(modulus: nat, a: nat, b: nat)
    requires modulus <= 94906266 && (a < modulus || a == 1) && b < modulus
    ensures a * b < EXACT
  {
    ProductBound(a, b, 94906265, 94906265);
  }

  /** which the products of two table primes are. */
  lemma TableModulusIsSmall(p: TablePrime, q: TablePrime)
    ensures p * q <= 90878089
  {
    ProductBound(p, q, 9533, 9533);
  }

  lemma ProductBound(a: nat, b: nat, x: nat, y: nat)
    requires a <= x && b <= y
    ensures a * b <= x * y
  {
    assert a * b <= a * y by { assert a * (y - b) >= 0; }
    assert a * y <= x * y by { assert (x - a) * y >= 0; }
  }

  // ----- Greatest common divisor -----

  ghost predicate CommonDivisor(d: int, a: int, b: int) {
    Divides(d, a) && Divides(d, b)
  }

  ghost predicate IsGcd(g: int, a: int, b: int) {
    g > 0 && CommonDivisor(g, a, b) && forall d: int :: CommonDivisor(d, a, b) ==> Divides(d, g)
  }

  /** One division step keeps the common divisors. */
  lemma DivisionKeepsCommonDivisors(a: int, b: int, q: int, d: int)
    ensures CommonDivisor(d, a, b) <==> CommonDivisor(d, b, a - q * b)
  {
    if Divides(d, b) {
      DividesMultiple(d, b, q);
      assert b * q == q * b;
      if Divides(d, a) {
        DividesSum(d, a, b * q);
      }
      if Divides(d, a - q * b) {
        DividesSum(d, a - q * b, b * q);
      }
    }
  }

  lemma AllDivisionKeepsCommonDivisors(a: int, b: int, q: int)
    ensures forall d: int :: CommonDivisor(d, a, b) <==> CommonDivisor(d, b, a - q * b)
  {
    forall d: int
      ensures CommonDivisor(d, a, b) <==> CommonDivisor(d, b, a - q * b)
    {
      DivisionKeepsCommonDivisors(a, b, q, d);
    }
  }

  lemma GcdWithZero(x: int, a: int, b: int)
    requires x > 0 && forall d: int :: CommonDivisor(d, x, 0) <==> CommonDivisor(d, a, b)
    ensures IsGcd(x, a, b)
  {
    DividesProduct(x, 1);
    DividesProduct(x, 0);
    assert CommonDivisor(x, x, 0);
  }

  /** GCD (rsa.php). */
  method GCD(e: nat, pi: nat) returns (x: nat)
    requires pi > 0
    ensures IsGcd(x, e, pi)
  {
    hide CommonDivisor, Congruent, Divides;
    var y := e;
    x := pi;
    SwapCommonDivisors(e, pi);
    while y != 0
      invariant x > 0 && y >= 0
      invariant forall d: int :: CommonDivisor(d, x, y) <==> CommonDivisor(d, e, pi)
      decreases y
    {
      AllDivisionKeepsCommonDivisors(x, y, x / y);
      assert x - (x / y) * y == Mo(x, y);
      var w := Mo(x, y);
      x := y;
      y := w;
    }
    GcdWithZero(x, e, pi);
  }

  lemma SwapCommonDivisors(a: int, b: int)
    ensures forall d: int :: CommonDivisor(d, a, b) <==> CommonDivisor(d, b, a)
  {
  }

  // ----- The public exponent -----

  lemma TableEntryIsPrime(x: TablePrime)
    ensures Prime(x)
  {
    NoSmallFactorMeansPrime(x);
  }

  /** A table prime fails to be coprime to (p-1)(q-1) exactly if p or q is twice it plus one. */
  lemma OnlySafePrimesFail(e: TablePrime, p: TablePrime, q: TablePrime, g: nat)
    requires IsGcd(g, e, (p - 1) * (q - 1))
    ensures g != 1 <==> p == 2 * e + 1 || q == 2 * e + 1
  {
    hide NoSmallFactor;
    if g != 1 {
      TableEntryIsPrime(e);
      DivisorBound(g, e);
      assert g == e;
      EuclidsLemma(e, p - 1, q - 1);
      if Divides(e, p - 1) {
        HalfOnly(e, p);
      } else {
        HalfOnly(e, q);
      }
    }
    if p == 2 * e + 1 || q == 2 * e + 1 {
      DividesProduct(e, 1);
      DividesProduct(e, 2);
      DividesMultiple(e, 2 * e, if p == 2 * e + 1 then q - 1 else p - 1);
      assert CommonDivisor(e, e, (p - 1) * (q - 1));
      DivisorBound(e, g);
    }
  }

  lemma HalfOnly(e: TablePrime, p: TablePrime)
    requires Divides(e, p - 1)
    ensures p == 2 * e + 1
  {
    hide NoSmallFactor;
    var k :| p - 1 == k * e;
    MulCancelLess(0, k, e);
    MulCancelLess(k, 3, e);
    TableEntryIsOdd(p);
    TableEntryIsOdd(e);
    assert k == 1 || k == 2;
  }

  lemma TableEntryIsOdd(x: TablePrime)
    ensures x % 2 == 1 && x != 9015
  {
    assert NoSmallFactor(x);
  }

  /** 2 * 4507 + 1 is not in the table, so the smallest entry never fails. */
  lemma SmallestNeverFails(p: TablePrime, q: TablePrime, g: nat)
    requires IsGcd(g, 4507, (p - 1) * (q - 1))
    ensures g == 1
  {
    TableEntryIsOdd(p);
    TableEntryIsOdd(q);
    OnlySafePrimesFail(4507, p, q, g);
  }

  /** The entries above one, up to the start of the scan, have a factor in common with pi. */
  ghost predicate NoneAbove(i: nat, start: nat, pi: nat) {
    forall k :: i < k <= start && k < |Primes()| ==> !IsGcd(1, Primes()[k], pi)
  }

  /** An entry is where the scan stops: the first one, from the start downwards, without a factor in common with pi. */
  ghost predicate StopsAt(i: nat, start: nat, pi: nat) {
    i <= start && i < |Primes()| && IsGcd(1, Primes()[i], pi) && NoneAbove(i, start, pi)
  }

  lemma NoneAboveMore(i: nat, start: nat, pi: nat, great: nat)
    requires 0 < i <= start < |Primes()| && NoneAbove(i, start, pi)
    requires IsGcd(great, Primes()[i], pi) && great != 1
    ensures NoneAbove(i - 1, start, pi)
  {
    hide IsGcd, Primes;
    if IsGcd(1, Primes()[i], pi) {
      GcdUnique(1, great, Primes()[i], pi);
      assert false;
    }
  }

  /** tofindE (rsa.php): scans the table downwards from a random entry. The second scan of the
      original, upwards, is never reached: a greatest common divisor is never 0. */
  method TofindE(pi: nat, start: nat, ghost p: TablePrime, ghost q: TablePrime) returns (se: nat)
    requires start < |Primes()| && pi == (p - 1) * (q - 1)
    ensures se in Primes() && IsGcd(1, se, pi)
    ensures exists i: nat :: i < |Primes()| && StopsAt(i, start, pi) && Primes()[i] == se
  {
    hide IsGcd, Primes, NoSmallFactor, NoneAbove;
    assert NoneAbove(start, start, pi) by { NothingAbove(start, pi); }
    EulerPositive(p, q);
    se := 0;
    var great := 0;
    var cc: int := start;
    while cc >= 0
      invariant -1 <= cc <= start
      invariant cc < start ==> se == Primes()[cc + 1] && IsGcd(great, se, pi) && great != 1
      invariant if cc < 0 then NoneAbove(0, start, pi) else NoneAbove(cc, start, pi)
      decreases cc
    {
      se := Primes()[cc];
      great := GCD(se, pi);
      cc := cc - 1;
      if great == 1 {
        assert StopsAt(cc + 1, start, pi);
        break;
      }
      if cc >= 0 {
        NoneAboveMore(cc + 1, start, pi, great);
      }
    }
    if great != 1 {
      SmallestEntry();
      SmallestNeverFails(p, q, great);
    }
  }

  lemma NothingAbove(start: nat, pi: nat)
    ensures NoneAbove(start, start, pi)
  {
  }

  lemma EulerPositive(p: TablePrime, q: TablePrime)
    ensures (p - 1) * (q - 1) >= 4506 * 4506
  {
    ProductBound(4506, 4506, p - 1, q - 1);
  }

  // ----- The private exponent -----

  /** extend (rsa.php): extended Euclid, keeping u1 * pi + u2 * e == u3 and the same for v. The
      coefficients of e alternate in sign and stay within half of pi. */
  method Extend(e: nat, pi: nat) returns (inverse: nat)
    requires 0 < e < pi
    ensures inverse < pi
    ensures forall g: int :: IsGcd(g, e, pi) ==> Congruent(inverse * e, g, pi)
  {
    hide CommonDivisor, Congruent, Divides;
    var u1: int, u2: int, u3: int := 1, 0, pi;
    var v1: int, v2: int, v3: int := 0, 1, e;
    ghost var sign: int, a: nat, b: nat := 1, 0, 1;
    while v3 != 0
      invariant u1 * pi + u2 * e == u3 && v1 * pi + v2 * e == v3 && 0 <= v3 < u3
      invariant (sign == 1 || sign == -1) && u2 == -sign * a && v2 == sign * b
      invariant b * u3 + a * v3 == pi && 2 * a <= pi
      invariant forall d: int :: CommonDivisor(d, u3, v3) <==> CommonDivisor(d, pi, e)
      decreases v3
    {
      var qq := u3 / v3;
      ExtendStep(u1, u2, u3, v1, v2, v3, qq, pi, e);
      CoefficientStep(sign, a, b, u3, v3, qq, pi, u2, v2);
      AllDivisionKeepsCommonDivisors(u3, v3, qq);
      var t1, t2, t3 := u1 - qq * v1, u2 - qq * v2, u3 - qq * v3;
      u1, u2, u3 := v1, v2, v3;
      v1, v2, v3 := t1, t2, t3;
      sign, a, b := -sign, b, a + qq * b;
    }
    var vv := u2;
    inverse := if vv < 0 then vv + pi else vv;
    SwapCommonDivisors(e, pi);
    GcdWithZero(u3, e, pi);
    InverseIsCongruent(u1, u2, u3, inverse, e, pi);
  }

  lemma ExtendStep(u1: int, u2: int, u3: int, v1: int, v2: int, v3: int, q: int, pi: int, e: int)
    requires u1 * pi + u2 * e == u3 && v1 * pi + v2 * e == v3 && v3 > 0 && u3 >= 0 && q == u3 / v3
    ensures (u1 - q * v1) * pi + (u2 - q * v2) * e == u3 - q * v3
    ensures 0 <= u3 - q * v3 < v3
  {
    assert (u1 - q * v1) * pi == u1 * pi - q * (v1 * pi);
    assert (u2 - q * v2) * e == u2 * e - q * (v2 * e);
    assert q * (v1 * pi) + q * (v2 * e) == q * v3;
    assert u3 - q * v3 == u3 % v3;
  }

  lemma CoefficientStep(sign: int, a: nat, b: nat, u3: int, v3: int, q: int, pi: int, u2: int, v2: int)
    requires sign == 1 || sign == -1
    requires u2 == -sign * a && v2 == sign * b && b * u3 + a * v3 == pi && 0 < v3 < u3 && q >= 0
    ensures a + q * b >= 0 && u2 - q * v2 == -sign * (a + q * b)
    ensures (a + q * b) * v3 + b * (u3 - q * v3) == pi
    ensures 2 * b <= pi
  {
    assert q * b >= 0 && a * v3 >= 0;
    assert (a + q * b) * v3 == a * v3 + (q * b) * v3;
    assert b * (q * v3) == (q * b) * v3;
    assert b * (u3 - q * v3) == b * u3 - b * (q * v3);
    assert b * (u3 - 2) >= 0;
    assert q * (sign * b) == sign * (q * b);
  }

  lemma InverseIsCongruent(u1: int, u2: int, g: int, inverse: int, e: int, pi: int)
    requires u1 * pi + u2 * e == g && (inverse == u2 || inverse == u2 + pi) && IsGcd(g, e, pi)
    ensures forall g': int :: IsGcd(g', e, pi) ==> Congruent(inverse * e, g', pi)
  {
    forall g': int | IsGcd(g', e, pi)
      ensures Congruent(inverse * e, g', pi)
    {
      GcdUnique(g, g', e, pi);
      if inverse == u2 {
        assert inverse * e - g == (-u1) * pi;
      } else {
        assert (u2 + pi) * e - g == (e - u1) * pi by {
          assert (u2 + pi) * e == u2 * e + e * pi;
          assert (e - u1) * pi == e * pi - u1 * pi;
        }
      }
    }
  }

  lemma GcdUnique(g: int, g': int, a: int, b: int)
    requires IsGcd(g, a, b) && IsGcd(g', a, b)
    ensures g == g'
  {
    assert CommonDivisor(g, a, b) && CommonDivisor(g', a, b);
    DivisorBound(g, g');
    DivisorBound(g', g);
  }

  /** There is only one inverse below pi. */
  lemma InverseUnique(e: nat, pi: nat, x: nat, y: nat)
    requires x < pi && y < pi && Congruent(x * e, 1, pi) && Congruent(y * e, 1, pi)
    ensures x == y
  {
    // x == x * (y * e) == y * (x * e) == y modulo pi
    CongruentReflexive(x, pi);
    CongruentReflexive(y, pi);
    CongruentProduct(y * e, 1, x, x, pi);
    CongruentProduct(x * e, 1, y, y, pi);
    assert (y * e) * x == (x * e) * y;
    CongruentSymmetric((y * e) * x, x, pi);
    CongruentTransitive(x, (y * e) * x, y, pi);
    CongruentInRange(x, y, pi);
  }

  // ----- Keys -----

  ghost predicate KeysFor(p: TablePrime, q: TablePrime, n: nat, e: nat, d: nat) {
    && p != q && n == p * q
    && e in Primes()
    && 0 < d < (p - 1) * (q - 1)
    && Congruent(e * d, 1, (p - 1) * (q - 1))
  }

  /** generate_keys (rsa.php), from the two primes drawn and the random start of the scan for e.
      Its retry loop runs once, since neither exponent can be empty. */
  method GenerateKeys(p: TablePrime, q: TablePrime, start: nat) returns (n: nat, e: nat, d: nat)
    requires p != q && start < |Primes()|
    ensures KeysFor(p, q, n, e, d) && e != 0 && d != 0
  {
    hide Primes, Congruent, IsGcd, NoSmallFactor;
    n := p * q;
    var pi := (p - 1) * (q - 1);
    EulerPositive(p, q);
    e := TofindE(pi, start, p, q);
    var i: nat :| i < |Primes()| && Primes()[i] == e;
    d := Extend(e, pi);
    InverseNotZero(d, e, pi);
    assert d * e == e * d;
  }

  lemma InverseNotZero(d: nat, e: nat, pi: nat)
    requires pi > 1 && Congruent(d * e, 1, pi)
    ensures d != 0
  {
    if d == 0 {
      assert 0 * e == 0;
      CongruentInRange(0, 1, pi);
    }
  }

  // ----- Modular powers -----

  /** powmod (rsa.php): right-to-left binary powers. */
  method PowMod(base: nat, exp: nat, modulus: nat) returns (accum: nat)
    requires modulus > 0
    ensures accum == if exp == 0 then 1 else Pow(base, exp) % modulus
  {
    hide Congruent, Mo, Pow;
    accum := 1;
    var i := 0;
    var basepow2 := base;
    PowStart(base, exp, modulus);
    while Shr(exp, i) > 0
      invariant Congruent(accum * Pow(basepow2, Shr(exp, i)), Pow(base, exp), modulus)
      invariant exp == 0 ==> i == 0 && accum == 1
      invariant Shr(exp, i) == 0 ==> exp == 0 || accum < modulus
      decreases Shr(exp, i)
    {
      ShrAdd(exp, i, 1);
      PowStep(accum, basepow2, Shr(exp, i), Pow(base, exp), modulus);
      if Shr(exp, i) % 2 == 1 {
        accum := Mo(accum * basepow2, modulus);
      }
      basepow2 := Mo(basepow2 * basepow2, modulus);
      i := i + 1;
    }
    PowEnd(accum, basepow2, base, exp, modulus);
  }

  /** powmod as it is computed, with every product and remainder rounded: nothing is lost when the base is a residue. */
  method PowModRounded(round: real -> real, base: nat, exp: nat, modulus: nat) returns (accum: real)
    requires Rounds(round) && base < modulus <= 94906266
    ensures accum == (if exp == 0 then 1 else Pow(base, exp) % modulus) as real
  {
    hide Congruent, Mo, Pow, MoRounded, Rounds;
    accum := 1.0;
    var i := 0;
    var basepow2 := base as real;
    ghost var a: nat, b: nat := 1, base;
    PowStart(base, exp, modulus);
    while Shr(exp, i) > 0
      invariant accum == a as real && basepow2 == b as real && b < modulus && (a < modulus || a == 1)
      invariant Congruent(a * Pow(b, Shr(exp, i)), Pow(base, exp), modulus)
      invariant exp == 0 ==> i == 0 && a == 1
      invariant Shr(exp, i) == 0 ==> exp == 0 || a < modulus
      decreases Shr(exp, i)
    {
      ShrAdd(exp, i, 1);
      PowStep(a, b, Shr(exp, i), Pow(base, exp), modulus);
      if Shr(exp, i) % 2 == 1 {
        MulRounded(round, accum, basepow2, a, b, modulus);
        accum := MoRounded(round, round(accum * basepow2), modulus as real);
        a := Mo(a * b, modulus);
      }
      MulRounded(round, basepow2, basepow2, b, b, modulus);
      basepow2 := MoRounded(round, round(basepow2 * basepow2), modulus as real);
      b := Mo(b * b, modulus);
      i := i + 1;
    }
    PowEnd(a, b, base, exp, modulus);
  }

  /** One rounded multiplication of residues. */
  lemma MulRounded(round: real -> real, x: real, y: real, a: nat, b: nat, modulus: nat)
    requires Rounds(round) && b < modulus <= 94906266 && (a < modulus || a == 1) && x == a as real && y == b as real
    ensures MoRounded(round, round(x * y), modulus as real) == Mo(a * b, modulus) as real
  {
    hide Mo, MoRounded, Rounds, Congruent;
    ProductsAreExact(modulus, a, b);
    RealProduct(a, b);
    var g := a * b;
    assert x * y == g as real;
    RoundsInteger(round, g);
    MoRoundedIsMo(round, g, modulus);
    assert round(x * y) == g as real;
  }

  lemma PowStart(base: nat, exp: nat, modulus: nat)
    requires modulus > 0
    ensures Congruent(1 * Pow(base, exp), Pow(base, exp), modulus)
  {
    CongruentReflexive(Pow(base, exp), modulus);
  }

  lemma PowEnd(accum: nat, basepow2: nat, base: nat, exp: nat, modulus: nat)
    requires modulus > 0 && Congruent(accum * Pow(basepow2, 0), Pow(base, exp), modulus)
    ensures exp > 0 && accum < modulus ==> accum == Pow(base, exp) % modulus
  {
    if accum < modulus {
      assert accum * Pow(basepow2, 0) == accum;
      CongruentMeansEqualMod(accum, Pow(base, exp), modulus);
      SmallMod(accum, modulus);
    }
  }

  /** Squaring the base halves the exponent; an odd exponent gives up one factor first. */
  lemma PowStep(accum: nat, b: nat, x: nat, target: int, m: nat)
    requires m > 0 && Congruent(accum * Pow(b, x), target, m)
    ensures var accum' := if x % 2 == 1 then Mo(accum * b, m) else accum;
      Congruent(accum' * Pow(Mo(b * b, m), x / 2), target, m)
  {
    hide Congruent, Mo;
    var accum' := if x % 2 == 1 then Mo(accum * b, m) else accum;
    var rest := if x % 2 == 1 then accum * b else accum;
    Square(b, x / 2);
    PowCongruent(Mo(b * b, m), b * b, x / 2, m);
    CongruentReflexive(accum, m);
    CongruentProduct(accum', rest, Pow(Mo(b * b, m), x / 2), Pow(b * b, x / 2), m);
    OddEven(accum, b, x);
    CongruentTransitive(accum' * Pow(Mo(b * b, m), x / 2), accum * Pow(b, x), target, m);
  }

  lemma Square(b: nat, h: nat)
    ensures Pow(b * b, h) == Pow(b, 2 * h)
  {
    PowPow(b, 2, h);
    assert Pow(b, 2) == b * (b * Pow(b, 0)) == b * b;
  }

  lemma OddEven(accum: nat, b: nat, x: nat)
    ensures (if x % 2 == 1 then accum * b else accum) * Pow(b, 2 * (x / 2)) == accum * Pow(b, x)
  {
    var h := 2 * (x / 2);
    if x % 2 == 1 {
      assert x == h + 1;
      MulAssociates(accum, b, Pow(b, h));
    } else {
      assert x == h;
    }
  }
}
