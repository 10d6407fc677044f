/**
 * Number-theoretic primitives of the cipher breaker: the extended Euclidean
 * algorithm (`euclid`) and the linear congruence solver (`lin_cmp`).
 *
 * All divisions in `euclid` are by a positive divisor once its operands are
 * ordered, so Python's floor `//` and `%` coincide with Dafny's `/` and `%`.
 */
module ModularArithmetic {

  /** `d` is a nonzero divisor of `x`. */
  predicate Divides(d: int, x: int) {
    d != 0 && x % d == 0
  }

  /** `x` and `y` are congruent modulo a nonzero `n`. */
  predicate Congruent(x: int, y: int, n: int) {
    Divides(n, x - y)
  }

  /** `x` solves the linear congruence `a*x == b (mod n)`. */
  predicate Solves(a: int, b: int, n: int, x: int) {
    Congruent(a * x, b, n)
  }

  /** `g` is the (positive) greatest common divisor of `a` and `b`:
      a positive common divisor that every common divisor divides. */
  ghost predicate IsGcd(g: int, a: int, b: int) {
    && g > 0 && Divides(g, a) && Divides(g, b)
    && forall c :: Divides(c, a) && Divides(c, b) ==> Divides(c, g)
  }

  // ---------------------------------------------------------------------
  // Divisibility facts

  lemma MulNonneg(x: int, y: int)
    requires x >= 0 && y >= 0
    ensures x * y >= 0
  {
  }

  /** The only multiple of a positive `d` strictly between `-d` and `d` is 0. */
  lemma MulSmall(d: int, t: int)
    requires d > 0 && -d < d * t < d
    ensures t == 0
  {
    if t >= 1 {
      MulNonneg(d, t - 1);
    } else if t <= -1 {
      MulNonneg(d, -1 - t);
    }
  }

  lemma MultipleDivides(d: int, k: int)
    requires d != 0
    ensures Divides(d, d * k)
  {
    var m := d * k;
    var q, r := m / d, m % d;
    assert m == d * q + r;
    assert r == d * (k - q);
    if d > 0 {
      MulSmall(d, k - q);
    } else {
      assert r == (-d) * (q - k);
      MulSmall(-d, q - k);
    }
  }

  lemma DividesQuotient(d: int, x: int)
    requires Divides(d, x)
    ensures x == d * (x / d)
  {
  }

  lemma DividesLinear(d: int, a: int, b: int, s: int, t: int)
    requires Divides(d, a) && Divides(d, b)
    ensures Divides(d, s * a + t * b)
  {
    DividesQuotient(d, a);
    DividesQuotient(d, b);
    var k := s * (a / d) + t * (b / d);
    calc {
      s * a + t * b;
      s * (d * (a / d)) + t * (d * (b / d));
      d * (s * (a / d)) + d * (t * (b / d));
      d * k;
    }
    MultipleDivides(d, k);
  }

  lemma DividesScale(c: int, x: int, d: int)
    requires Divides(c, x) && d != 0
    ensures Divides(c * d, x * d)
  {
    DividesQuotient(c, x);
    assert x * d == (c * d) * (x / c);
    MultipleDivides(c * d, x / c);
  }

  lemma DividesLe(c: int, x: int)
    requires c > 0 && x > 0 && Divides(c, x)
    ensures c <= x
  {
    DividesQuotient(c, x);
    var k := x / c;
    if k >= 1 {
      MulNonneg(c, k - 1);
    } else {
      MulNonneg(c, -k);
    }
  }

  lemma DividesSelf(n: int)
    requires n != 0
    ensures Divides(n, n) && Divides(n, 0)
  {
    MultipleDivides(n, 1);
    MultipleDivides(n, 0);
  }

  /** A common divisor that Bezout's identity expresses is the gcd. */
  lemma BezoutIsGcd(g: int, a: int, b: int, s: int, t: int)
    requires g > 0 && Divides(g, a) && Divides(g, b)
    requires s * a + t * b == g
    ensures IsGcd(g, a, b)
  {
    forall c | Divides(c, a) && Divides(c, b)
      ensures Divides(c, g)
    {
      DividesLinear(c, a, b, s, t);
    }
  }

  lemma GcdUnique(g: int, h: int, a: int, b: int)
    requires IsGcd(g, a, b) && IsGcd(h, a, b)
    ensures g == h
  {
    DividesLe(g, h);
    DividesLe(h, g);
  }

  // ---------------------------------------------------------------------
  // Congruence facts

  lemma CongruentLinear(x: int, y: int, n: int, k: int)
    requires n != 0 && x - y == k * n
    ensures Congruent(x, y, n)
  {
    assert x - y == n * k;
    MultipleDivides(n, k);
  }

  lemma CongruentWitness(x: int, y: int, n: int) returns (k: int)
    requires Congruent(x, y, n)
    ensures x - y == k * n
  {
    DividesQuotient(n, x - y);
    k := (x - y) / n;
  }

  lemma CongruentTrans(x: int, y: int, z: int, n: int)
    requires Congruent(x, y, n) && Congruent(y, z, n)
    ensures Congruent(x, z, n)
  {
    var k := CongruentWitness(x, y, n);
    var m := CongruentWitness(y, z, n);
    CongruentLinear(x, z, n, k + m);
  }

  lemma CongruentMod(x: int, n: int)
    requires n > 0
    ensures Congruent(x % n, x, n)
  {
    CongruentLinear(x % n, x, n, -(x / n));
  }

  lemma CongruentMul(x: int, y: int, c: int, n: int)
    requires Congruent(x, y, n)
    ensures Congruent(c * x, c * y, n)
  {
    var k := CongruentWitness(x, y, n);
    assert c * x - c * y == c * (x - y) == (c * k) * n;
    CongruentLinear(c * x, c * y, n, c * k);
  }

  /** Two residues in `[0, n)` that are congruent modulo `n` are equal. */
  lemma ResidueUnique(x: int, y: int, n: int)
    requires 0 <= x < n && 0 <= y < n && Congruent(x, y, n)
    ensures x == y
  {
    var k := CongruentWitness(x, y, n);
    assert x - y == n * k;
    MulSmall(n, k);
  }

  /** Multiplying by an inverse cancels `a` from a congruence. */
  lemma Cancel(a: int, inv: int, x: int, y: int, n: int)
    requires Congruent(inv * a, 1, n) && Congruent(a * x, a * y, n)
    ensures Congruent(x, y, n)
  {
    var m := CongruentWitness(inv * a, 1, n);
    var k := CongruentWitness(a * x, a * y, n);
    calc {
      x - y;
      (inv * a - m * n) * (x - y);
      inv * (a * x - a * y) - (m * (x - y)) * n;
      inv * (k * n) - (m * (x - y)) * n;
      (inv * k - m * (x - y)) * n;
    }
    CongruentLinear(x, y, n, inv * k - m * (x - y));
  }

  /** With `inv` an inverse of `a` modulo `n`, `(inv*b) % n` solves `a*x == b`. */
  lemma InverseSolves(a: int, inv: int, b: int, n: int)
    requires n > 0 && Congruent(inv * a, 1, n)
    ensures Solves(a, b, n, (inv * b) % n)
  {
    var x := (inv * b) % n;
    CongruentMod(inv * b, n);
    CongruentMul(x, inv * b, a, n);
    var m := CongruentWitness(inv * a, 1, n);
    calc {
      a * (inv * b) - b;
      (inv * a - 1) * b;
      (m * n) * b;
      (m * b) * n;
    }
    CongruentLinear(a * (inv * b), b, n, m * b);
    CongruentTrans(a * x, a * (inv * b), b, n);
  }

  // ---------------------------------------------------------------------
  // euclid (cp3.py:13-37)

  /** `euclid`'s result list `[gcd, coefficient of a, coefficient of b]`. */
  datatype Bezout = Bezout(gcd: int, coefA: int, coefB: int)

  /** The remainder loop of `euclid` from the state `(a, b)`, carrying the last
      two entries `u0, u1` of the list `u` and `v0, v1` of the list `v`. */
  function Steps(a: int, b: int, u0: int, u1: int, v0: int, v1: int): Bezout
    requires b > 0
    decreases b
  {
    if a % b == 0 then Bezout(b, u1, v1)
    else Steps(b, a % b, u1, u0 - (a / b) * u1, v1, v0 - (a / b) * v1)
  }

  /** The loop keeps every remainder a combination of the operands `A`, `B`. */
  lemma {:induction false} StepsBezout(A: int, B: int, a: int, b: int, u0: int, u1: int, v0: int, v1: int)
    requires b > 0
    requires u0 * A + v0 * B == a && u1 * A + v1 * B == b
    ensures var r := Steps(a, b, u0, u1, v0, v1); r.coefA * A + r.coefB * B == r.gcd
    decreases b
  {
    if a % b != 0 {
      var q := a / b;
      calc {
        (u0 - q * u1) * A + (v0 - q * v1) * B;
        (u0 * A + v0 * B) - q * (u1 * A + v1 * B);
        a - q * b;
        a % b;
      }
      StepsBezout(A, B, b, a % b, u1, u0 - q * u1, v1, v0 - q * v1);
    }
  }

  /** The value the loop stops at divides both operands of every step. */
  lemma {:induction false} StepsDivides(a: int, b: int, u0: int, u1: int, v0: int, v1: int)
    requires b > 0
    ensures var g := Steps(a, b, u0, u1, v0, v1).gcd; g > 0 && Divides(g, a) && Divides(g, b)
    decreases b
  {
    var g := Steps(a, b, u0, u1, v0, v1).gcd;
    if a % b == 0 {
      DividesSelf(b);
    } else {
      var q := a / b;
      StepsDivides(b, a % b, u1, u0 - q * u1, v1, v0 - q * v1);
      assert a == q * b + 1 * (a % b);
      DividesLinear(g, b, a % b, q, 1);
    }
  }

  /** `euclid` before the normalisation of cp3.py:32-35: the operands are
      ordered and the coefficient lists swapped when `a > b`. */
  function RawEuclid(a: int, b: int): (r: Bezout)
    requires a > 0 || b > 0
    ensures r.coefA * a + r.coefB * b == r.gcd
    ensures IsGcd(r.gcd, a, b)
  {
    if a > b then
      var r := Steps(b, a, 0, 1, 1, 0);
      StepsBezout(a, b, b, a, 0, 1, 1, 0);
      StepsDivides(b, a, 0, 1, 1, 0);
      BezoutIsGcd(r.gcd, a, b, r.coefA, r.coefB);
      r
    else
      var r := Steps(a, b, 1, 0, 0, 1);
      StepsBezout(a, b, a, b, 1, 0, 0, 1);
      StepsDivides(a, b, 1, 0, 0, 1);
      BezoutIsGcd(r.gcd, a, b, r.coefA, r.coefB);
      r
  }

  /** Raising a negative Bezout coefficient `c` of `x` by the modulus `m` keeps
      `c*x` congruent to `g` modulo `m`. */
  lemma RaisedCoefficient(c: int, x: int, t: int, m: int, g: int)
    requires m != 0 && c * x + t * m == g
    ensures Congruent((if c < 0 then c + m else c) * x, g, m)
  {
    if c < 0 {
      assert (c + m) * x - g == (x - t) * m;
      CongruentLinear((c + m) * x, g, m, x - t);
    } else {
      CongruentLinear(c * x, g, m, -t);
    }
  }

  /** `euclid(a, b)`: the gcd and each coefficient made non-negative by adding
      the other operand once when it is negative. */
  function ExtendedGcd(a: int, b: int): (r: Bezout)
    requires a > 0 || b > 0
    ensures IsGcd(r.gcd, a, b)
    ensures b != 0 ==> Congruent(r.coefA * a, r.gcd, b)
    ensures a != 0 ==> Congruent(r.coefB * b, r.gcd, a)
  {
    var raw := RawEuclid(a, b);
    var s := if raw.coefA < 0 then raw.coefA + b else raw.coefA;
    var t := if raw.coefB < 0 then raw.coefB + a else raw.coefB;
    assert b != 0 ==> Congruent(s * a, raw.gcd, b) by {
      if b != 0 {
        RaisedCoefficient(raw.coefA, a, raw.coefB, b, raw.gcd);
      }
    }
    assert a != 0 ==> Congruent(t * b, raw.gcd, a) by {
      if a != 0 {
        RaisedCoefficient(raw.coefB, b, raw.coefA, a, raw.gcd);
      }
    }
    Bezout(raw.gcd, s, t)
  }

  function Abs(x: int): nat {
    if x < 0 then -x else x
  }

  /** One step of the loop on a coefficient list whose last two entries have
      opposite signs: the new entry `u0 - q*u1` has the sign opposite to `u1`. */
  lemma SignStep(u0: int, u1: int, q: int)
    requires u0 * u1 <= 0 && q >= 0
    ensures u1 * (u0 - q * u1) <= 0
  {
    assert u1 * (u0 - q * u1) == u0 * u1 - q * (u1 * u1);
    MulNonneg(q, u1 * u1);
  }

  /** ... and its size is `|u0| + q*|u1|`. */
  lemma AbsStep(u0: int, u1: int, q: int)
    requires u0 * u1 <= 0 && q >= 0
    ensures Abs(u0 - q * u1) == Abs(u0) + q * Abs(u1)
  {
    if u1 > 0 {
      if u0 > 0 {
        MulNonneg(u0 - 1, u1);
        assert false;
      }
      MulNonneg(q, u1);
    } else if u1 < 0 {
      if u0 < 0 {
        MulNonneg(-u0 - 1, -u1);
        assert false;
      }
      MulNonneg(q, -u1);
      assert q * Abs(u1) == -(q * u1);
    }
  }

  lemma Regroup(x: int, y: int, q: int, b: int, r: int)
    ensures (x + q * y) * b + y * r == x * b + y * (q * b + r)
  {
  }

  /** The loop keeps the coefficients of the two current remainders `a`, `b`
      of opposite signs and tied to the operands by `|u1|*a + |u0|*b == B`
      and `|v1|*a + |v0|*b == A`, so the coefficients it stops at are at most
      `B` and `A` in size. */
  lemma {:induction false} StepsBounded(A: int, B: int, a: int, b: int, u0: int, u1: int, v0: int, v1: int)
    requires a > 0 && b > 0
    requires u0 * u1 <= 0 && v0 * v1 <= 0
    requires Abs(u1) * a + Abs(u0) * b == B && Abs(v1) * a + Abs(v0) * b == A
    ensures var r := Steps(a, b, u0, u1, v0, v1); Abs(r.coefA) <= B && Abs(r.coefB) <= A
    decreases b
  {
    if a % b == 0 {
      MulNonneg(Abs(u1), a - 1);
      MulNonneg(Abs(u0), b);
      MulNonneg(Abs(v1), a - 1);
      MulNonneg(Abs(v0), b);
    } else {
      var q := a / b;
      assert a == q * b + a % b;
      SignStep(u0, u1, q);
      SignStep(v0, v1, q);
      AbsStep(u0, u1, q);
      AbsStep(v0, v1, q);
      Regroup(Abs(u0), Abs(u1), q, b, a % b);
      Regroup(Abs(v0), Abs(v1), q, b, a % b);
      StepsBounded(A, B, b, a % b, u1, u0 - q * u1, v1, v0 - q * v1);
    }
  }

  /** For positive operands `euclid`'s normalisation (cp3.py:32-35) makes
      both coefficients non-negative: the coefficient of `a` lies in `[0, b]`
      and that of `b` in `[0, a]`. */
  lemma ExtendedGcdBounds(a: int, b: int)
    requires a > 0 && b > 0
    ensures 0 <= ExtendedGcd(a, b).coefA <= b
    ensures 0 <= ExtendedGcd(a, b).coefB <= a
  {
    if a > b {
      StepsBounded(a, b, b, a, 0, 1, 1, 0);
    } else {
      StepsBounded(a, b, a, b, 1, 0, 0, 1);
    }
  }

  /** When the gcd is 1 the two coefficients are mutual modular inverses, for
      every sign of the operands `euclid` accepts (`lin_cmp` passes a negative
      `a` as the second operand). */
  lemma ExtendedGcdInverses(a: int, b: int)
    requires (a > 0 || b > 0) && a != 0 && b != 0 && IsGcd(1, a, b)
    ensures Congruent(ExtendedGcd(a, b).coefA * a, 1, b)
    ensures Congruent(ExtendedGcd(a, b).coefB * b, 1, a)
  {
    GcdUnique(ExtendedGcd(a, b).gcd, 1, a, b);
  }

  /** `euclid` as written: the remainder loop over the growing lists `u`, `v`
      and `q`, then the normalisation of the last coefficients. */
  method Euclid(a: int, b: int) returns (r: Bezout)
    requires a > 0 || b > 0
    ensures r == ExtendedGcd(a, b)
    ensures IsGcd(r.gcd, a, b)
  {
    var u, v := [1, 0], [0, 1];
    var a', b' := a, b;
    var a0, b0 := a, b;
    if a' > b' {
      a', b' := b', a';
      u, v := v, u;
      a0, b0 := b', a';
    }
    var rem := a' % b';
    var q := [a' / b'];
    while a' % b' != 0
      invariant b' > 0 && |u| >= 2 && |v| == |u| && |q| >= 1
      invariant rem == a' % b' && q[|q| - 1] == a' / b'
      invariant Steps(a', b', u[|u| - 2], u[|u| - 1], v[|v| - 2], v[|v| - 1]) == RawEuclid(a, b)
      decreases b'
    {
      a' := b';
      b' := rem;
      rem := a' % b';
      u := u + [u[|u| - 2] - q[|q| - 1] * u[|u| - 1]];
      v := v + [v[|v| - 2] - q[|q| - 1] * v[|v| - 1]];
      q := q + [a' / b'];
    }
    if u[|u| - 1] < 0 {
      u := u[|u| - 1 := u[|u| - 1] + b0];
    }
    if v[|v| - 1] < 0 {
      v := v[|v| - 1 := v[|v| - 1] + a0];
    }
    r := Bezout(b', u[|u| - 1], v[|v| - 1]);
  }

  /** The script's self-test `euclid(155, 29)` (cp3.py:137). */
  lemma EuclidVector()
    ensures ExtendedGcd(155, 29) == Bezout(1, 3, 139)
  {
    assert Steps(9, 1, -2, 3, 11, -16) == Bezout(1, 3, -16);
    assert Steps(10, 9, 1, -2, -5, 11) == Steps(9, 1, -2, 3, 11, -16);
    assert Steps(29, 10, 0, 1, 1, -5) == Steps(10, 9, 1, -2, -5, 11);
    assert Steps(155, 29, 1, 0, 0, 1) == Steps(29, 10, 0, 1, 1, -5);
    assert Steps(29, 155, 0, 1, 1, 0) == Steps(155, 29, 1, 0, 0, 1);
  }

  // ---------------------------------------------------------------------
  // lin_cmp (cp3.py:40-54)

  lemma CongruentSym(x: int, y: int, n: int)
    requires Congruent(x, y, n)
    ensures Congruent(y, x, n)
  {
    var k := CongruentWitness(x, y, n);
    CongruentLinear(y, x, n, -k);
  }

  lemma QuotientPositive(d: int, n: int)
    requires d > 0 && n > 0 && Divides(d, n)
    ensures n / d > 0 && n == d * (n / d)
  {
    DividesQuotient(d, n);
  }

  /** Dividing both operands by their gcd leaves coprime operands. */
  lemma ReducedCoprime(n: int, a: int, d: int, g: int)
    requires IsGcd(d, n, a) && IsGcd(g, n / d, a / d)
    ensures g == 1
  {
    DividesQuotient(d, n);
    DividesQuotient(d, a);
    DividesScale(g, n / d, d);
    DividesScale(g, a / d, d);
    assert (n / d) * d == n && (a / d) * d == a;
    assert Divides(g * d, d);
    DividesLe(g * d, d);
    if g >= 2 {
      MulNonneg(g - 2, d);
    }
  }

  /** A solution of the reduced congruence, shifted by any multiple of the
      reduced modulus, solves the congruence scaled by `d`. */
  lemma ScaledSolution(a': int, b': int, n': int, d: int, x: int, i: int)
    requires d > 0 && n' > 0 && Solves(a', b', n', x)
    ensures Solves(a' * d, b' * d, n' * d, x + i * n')
  {
    var k := CongruentWitness(a' * x, b', n');
    calc {
      (a' * d) * (x + i * n') - b' * d;
      d * (a' * x - b') + (a' * i) * (n' * d);
      d * (k * n') + (a' * i) * (n' * d);
      (k + a' * i) * (n' * d);
    }
    MulNonneg(n', d);
    CongruentLinear((a' * d) * (x + i * n'), b' * d, n' * d, k + a' * i);
  }

  /** A solution of the congruence scaled by `d` solves the reduced one. */
  lemma UnscaledSolution(a': int, b': int, n': int, d: int, y: int)
    requires d > 0 && n' > 0 && Solves(a' * d, b' * d, n' * d, y)
    ensures Solves(a', b', n', y)
  {
    var k := CongruentWitness((a' * d) * y, b' * d, n' * d);
    assert d * ((a' * y - b') - k * n') == 0;
    MulSmall(d, (a' * y - b') - k * n');
    CongruentLinear(a' * y, b', n', k);
  }

  /** A residue below `d*n'` congruent to `x0` modulo `n'` is `x0 + m*n'`
      for some `m` in `[0, d)`. */
  lemma ResidueClass(x0: int, y: int, n': int, d: int) returns (m: int)
    requires n' > 0 && 0 <= x0 < n' && 0 <= y < d * n' && Congruent(y, x0, n')
    ensures 0 <= m < d && y == x0 + m * n'
  {
    m := CongruentWitness(y, x0, n');
    if m <= -1 {
      MulNonneg(-1 - m, n');
    }
    if m >= d {
      MulNonneg(m - d, n');
    }
  }

  /** The residues `x0 + i*n'` for `i` in `[0, d)` lie in `[0, d*n')`. */
  lemma ResidueRange(x0: int, n': int, d: int, i: int)
    requires n' > 0 && 0 <= x0 < n' && 0 <= i < d
    ensures 0 <= x0 + i * n' < d * n'
  {
    MulNonneg(i, n');
    MulNonneg(d - 1 - i, n');
  }

  /** The result of `lin_cmp`: one residue when the gcd is 1, the sentinel
      when the gcd does not divide `b`, otherwise the `d` residues. */
  datatype Solutions = Unique(x: int) | NoSolution | Several(xs: seq<int>)

  /** The integer the callers see when `lin_cmp` does not return a list:
      the residue, or the sentinel 0 for "no solution" (cp3.py:47). */
  function AsScalar(s: Solutions): int
    requires !s.Several?
  {
    if s.Unique? then s.x else 0
  }

  /** `lin_cmp(a, b, n)`: solve `a*x == b (mod n)`. */
  function LinCmp(a: int, b: int, n: int): Solutions
    requires n > 0
  {
    var e := ExtendedGcd(n, a);
    var d := e.gcd;
    if d == 1 then Unique((e.coefB * b) % n)
    else if b % d != 0 then NoSolution
    else
      QuotientPositive(d, n);
      var n', a', b' := n / d, a / d, b / d;
      var x := (ExtendedGcd(n', a').coefB * b') % n';
      Several(seq(d, i => x + i * n'))
  }

  /** Coprime case: the unique residue solving the congruence, for every
      sign of `a` and `b`. */
  lemma LinCmpUnique(a: int, b: int, n: int)
    requires n > 0
    ensures LinCmp(a, b, n).Unique? <==> IsGcd(1, n, a)
    ensures var r := LinCmp(a, b, n);
      r.Unique? ==>
        && 0 <= r.x < n && Solves(a, b, n, r.x)
        && forall y :: 0 <= y < n && Solves(a, b, n, y) ==> y == r.x
  {
    var e := ExtendedGcd(n, a);
    var r := LinCmp(a, b, n);
    if e.gcd == 1 {
      InverseSolves(a, e.coefB, b, n);
      forall y | 0 <= y < n && Solves(a, b, n, y)
        ensures y == r.x
      {
        CongruentSym(a * r.x, b, n);
        CongruentTrans(a * y, b, a * r.x, n);
        Cancel(a, e.coefB, y, r.x, n);
        ResidueUnique(y, r.x, n);
      }
    } else if IsGcd(1, n, a) {
      GcdUnique(1, e.gcd, n, a);
    }
  }

  /** Every solution of `a*x == b (mod n)` makes `b` a multiple of any common
      divisor of `a` and `n`. */
  lemma SolvableDivides(a: int, b: int, n: int, d: int, y: int)
    requires Solves(a, b, n, y) && Divides(d, a) && Divides(d, n)
    ensures Divides(d, b)
  {
    var k := CongruentWitness(a * y, b, n);
    assert b == y * a + (-k) * n;
    DividesLinear(d, a, n, y, -k);
  }

  /** Degenerate case with many solutions: exactly the `d = gcd(n, a)`
      residues `x0 + i*(n/d)`, ascending, all in `[0, n)`, all solutions. */
  lemma LinCmpSeveral(a: int, b: int, n: int)
    requires n > 0
    ensures var r := LinCmp(a, b, n);
      r.Several? ==>
        var d := |r.xs|;
        && d > 1 && IsGcd(d, n, a) && Divides(d, b)
        && 0 <= r.xs[0] < n / d
        && (forall i :: 0 <= i < d ==> r.xs[i] == r.xs[0] + i * (n / d))
        && (forall i :: 0 <= i < d ==> 0 <= r.xs[i] < n && Solves(a, b, n, r.xs[i]))
        && (forall y :: 0 <= y < n && Solves(a, b, n, y) ==> y in r.xs)
  {
    var e := ExtendedGcd(n, a);
    var d := e.gcd;
    var r := LinCmp(a, b, n);
    if r.Several? {
      QuotientPositive(d, n);
      DividesQuotient(d, a);
      DividesQuotient(d, b);
      var n', a', b' := n / d, a / d, b / d;
      assert n == n' * d && a == a' * d && b == b' * d;
      var e' := ExtendedGcd(n', a');
      ReducedCoprime(n, a, d, e'.gcd);
      var x0 := (e'.coefB * b') % n';
      InverseSolves(a', e'.coefB, b', n');
      assert |r.xs| == d;
      forall i | 0 <= i < d
        ensures 0 <= r.xs[i] < n && Solves(a, b, n, r.xs[i])
      {
        ResidueRange(x0, n', d, i);
        ScaledSolution(a', b', n', d, x0, i);
      }
      forall y | 0 <= y < n && Solves(a, b, n, y)
        ensures y in r.xs
      {
        UnscaledSolution(a', b', n', d, y);
        CongruentSym(a' * x0, b', n');
        CongruentTrans(a' * y, b', a' * x0, n');
        Cancel(a', e'.coefB, y, x0, n');
        var m := ResidueClass(x0, y, n', d);
        assert r.xs[m] == y;
      }
    }
  }

  /** The sentinel is returned exactly when the congruence has no solution. */
  lemma LinCmpNoSolution(a: int, b: int, n: int)
    requires n > 0
    ensures LinCmp(a, b, n).NoSolution? <==> forall y :: !Solves(a, b, n, y)
  {
    var e := ExtendedGcd(n, a);
    var r := LinCmp(a, b, n);
    if r.NoSolution? {
      forall y
        ensures Solves(a, b, n, y) ==> Divides(e.gcd, b)
      {
        if Solves(a, b, n, y) {
          SolvableDivides(a, b, n, e.gcd, y);
        }
      }
    } else if r.Unique? {
      LinCmpUnique(a, b, n);
    } else {
      LinCmpSeveral(a, b, n);
      assert Solves(a, b, n, r.xs[0]);
    }
  }

  /** Two affine equations sharing a key: if `a*p + b == c` and the
      multiplier solves `a*(p - q) == c - d`, then `a*q + b == d`. */
  lemma SharedKey(a: int, b: int, p: int, q: int, c: int, d: int, n: int)
    requires Congruent(a * p + b, c, n) && Solves(p - q, c - d, n, a)
    ensures Congruent(a * q + b, d, n)
  {
    var m := CongruentWitness(a * p + b, c, n);
    var k := CongruentWitness((p - q) * a, c - d, n);
    assert (a * q + b) - d == (a * p + b - c) - ((p - q) * a - (c - d));
    CongruentLinear(a * q + b, d, n, m - k);
  }

  /** Every number a `lin_cmp` result holds is a residue modulo `n`. */
  predicate Residues(s: Solutions, n: int) {
    match s
    case Unique(x) => 0 <= x < n
    case NoSolution => true
    case Several(xs) => forall i :: 0 <= i < |xs| ==> 0 <= xs[i] < n
  }

  lemma LinCmpResidues(a: int, b: int, n: int)
    requires n > 0
    ensures Residues(LinCmp(a, b, n), n)
  {
    LinCmpUnique(a, b, n);
    LinCmpSeveral(a, b, n);
  }

  /** Every number a `lin_cmp` result holds solves the congruence. */
  predicate AllSolve(s: Solutions, a: int, b: int, n: int) {
    match s
    case Unique(x) => Solves(a, b, n, x)
    case NoSolution => true
    case Several(xs) => forall i :: 0 <= i < |xs| ==> Solves(a, b, n, xs[i])
  }

  lemma LinCmpSound(a: int, b: int, n: int)
    requires n > 0
    ensures AllSolve(LinCmp(a, b, n), a, b, n)
  {
    LinCmpUnique(a, b, n);
    LinCmpSeveral(a, b, n);
  }

  /** The script's self-test `lin_cmp(7, 19, 41)` (cp3.py:139). */
  lemma LinCmpUniqueVector()
    ensures LinCmp(7, 19, 41) == Unique(32)
  {
    BezoutIsGcd(1, 41, 7, -1, 6);
    LinCmpUnique(7, 19, 41);
    assert Solves(7, 19, 41, 32) by {
      CongruentLinear(7 * 32, 19, 41, 5);
    }
  }

  /** The script's self-test `lin_cmp(39, 30, 111)` (cp3.py:141): the gcd
      is 3 and the reduced congruence `13*x == 10 (mod 37)` has the inverse
      20 of 13, so the residues start at `20*10 % 37 == 15`. */
  lemma LinCmpSeveralVector()
    ensures LinCmp(39, 30, 111) == Several([15, 52, 89])
  {
    VectorResidues();
    ThreeResidues(LinCmp(39, 30, 111));
  }

  lemma VectorResidues()
    ensures LinCmp(39, 30, 111).Several? && |LinCmp(39, 30, 111).xs| == 3
    ensures LinCmp(39, 30, 111).xs[0] == 15
    ensures LinCmp(39, 30, 111).xs[1] == 52
    ensures LinCmp(39, 30, 111).xs[2] == 89
  {
    GcdOfVector();
    InverseOfVector();
    assert 111 / 3 == 37 && 39 / 3 == 13 && 30 / 3 == 10;
    assert ExtendedGcd(37, 13).coefB * 10 == 200;
    assert 200 % 37 == 15;
  }

  lemma ThreeResidues(r: Solutions)
    requires r.Several? && |r.xs| == 3 && r.xs[0] == 15 && r.xs[1] == 52 && r.xs[2] == 89
    ensures r == Several([15, 52, 89])
  {
  }

  /** `euclid(111, 39)`: the remainder loop stops at 3. */
  lemma GcdOfVector()
    ensures ExtendedGcd(111, 39).gcd == 3
  {
    assert Steps(6, 3, -1, 6, 3, -17) == Bezout(3, 6, -17);
    assert Steps(33, 6, 1, -1, -2, 3) == Steps(6, 3, -1, 6, 3, -17);
    assert Steps(39, 33, 0, 1, 1, -2) == Steps(33, 6, 1, -1, -2, 3);
    assert Steps(111, 39, 1, 0, 0, 1) == Steps(39, 33, 0, 1, 1, -2);
    assert Steps(39, 111, 0, 1, 1, 0) == Steps(111, 39, 1, 0, 0, 1);
  }

  /** `euclid(37, 13)`: 20 is the inverse of 13 modulo 37. */
  lemma InverseOfVector()
    ensures ExtendedGcd(37, 13).coefB == 20
  {
    assert Steps(2, 1, -1, 6, 3, -17) == Bezout(1, 6, -17);
    assert Steps(11, 2, 1, -1, -2, 3) == Steps(2, 1, -1, 6, 3, -17);
    assert Steps(13, 11, 0, 1, 1, -2) == Steps(11, 2, 1, -1, -2, 3);
    assert Steps(37, 13, 1, 0, 0, 1) == Steps(13, 11, 0, 1, 1, -2);
    assert Steps(13, 37, 0, 1, 1, 0) == Steps(37, 13, 1, 0, 0, 1);
  }
}
