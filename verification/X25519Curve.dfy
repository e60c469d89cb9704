/** What the ladder computes on the curve y^2 = x^3 + 486662 x^2 + x over GF(p) (section 4.1
    of RFC 7748): its step is the doubling and the differential addition of the chord and
    tangent law, and the whole ladder walks the multiples of its point. Products are written
    with Times where the solver should not multiply polynomials out. */
module X25519Curve {
  import opened Arith
  import opened Limbs
  import opened X25519Field
  import opened X25519Ladder

  const A: int := 486662

  // ---- the step as polynomials in the coordinates ----

  lemma {:induction false} AddCong(x: int, x': int, y: int, y': int)
    requires Cong(x, x', P) && Cong(y, y', P)
    ensures Cong(FAdd(x, y), x' + y', P) && Cong(FSub(x, y), x' - y', P)
  {
    CongAdd(x, x', y, y', P);
    CongRemainder(x + y, P);
    CongRemainder(x - y, P);
    CongTrans(FAdd(x, y), x + y, x' + y', P);
    CongTrans(FSub(x, y), x - y, x' - y', P);
  }

  lemma {:induction false} MulCong(x: int, x': int, y: int, y': int)
    requires Cong(x, x', P) && Cong(y, y', P)
    ensures Cong(FMul(x, y), x' * y', P)
  {
    hide Times;
    TimesIs(x, y);
    CongMul(x, x', y, y', P);
    CongRemainder(x * y, P);
    CongTrans(FMul(x, y), x * y, x' * y', P);
  }

  lemma {:induction false} SumAndDifference(x: int, z: int)
    ensures Cong(FAdd(x, z), x + z, P) && Cong(FSub(x, z), x - z, P)
  {
    CongSelf(x, P);
    CongSelf(z, P);
    AddCong(x, x, z, z);
  }

  function Square(x: int): int
  {
    Times(x, x)
  }

  lemma {:induction false} SquareIs(x: int)
    ensures Square(x) == x * x
  {
    TimesIs(x, x);
  }

  /** Differential addition: x3' = 4 (x2 x3 - z2 z3)^2 and z3' = 4 x1 (x2 z3 - x3 z2)^2. */
  lemma {:induction false} AddHalfLaw(x1: int, s: Points)
    ensures Cong(AddHalf(x1, s).0, 4 * Square(Times(s.x2, s.x3) - Times(s.z2, s.z3)), P)
    ensures Cong(AddHalf(x1, s).1, 4 * Times(x1, Square(Times(s.x2, s.z3) - Times(s.x3, s.z2))), P)
  {
    hide Cong, FAdd, FSub, FMul, Times, Square;
    CrossTimes(s);
    var a, b, c, d := FAdd(s.x2, s.z2), FSub(s.x2, s.z2), FAdd(s.x3, s.z3), FSub(s.x3, s.z3);
    SumAndDifference(s.x2, s.z2);
    SumAndDifference(s.x3, s.z3);
    MulCong(d, s.x3 - s.z3, a, s.x2 + s.z2);
    MulCong(c, s.x3 + s.z3, b, s.x2 - s.z2);
    var p, q := (s.x3 - s.z3) * (s.x2 + s.z2), (s.x3 + s.z3) * (s.x2 - s.z2);
    AddCong(FMul(d, a), p, FMul(c, b), q);
    var sum, dif := FAdd(FMul(d, a), FMul(c, b)), FSub(FMul(d, a), FMul(c, b));
    MulCong(sum, p + q, sum, p + q);
    MulCong(dif, p - q, dif, p - q);
    CongSelf(x1, P);
    MulCong(x1, x1, FMul(dif, dif), (p - q) * (p - q));
    CrossProducts(s.x2, s.z2, s.x3, s.z3);
    TwiceSquared(s.x2 * s.x3 - s.z2 * s.z3);
    TwiceSquared(s.x2 * s.z3 - s.x3 * s.z2);
    ScaledSquare(x1, s.x2 * s.z3 - s.x3 * s.z2);
  }

  lemma {:induction false} CrossTimes(s: Points)
    ensures Times(s.x2, s.x3) == s.x2 * s.x3 && Times(s.z2, s.z3) == s.z2 * s.z3
    ensures Times(s.x2, s.z3) == s.x2 * s.z3 && Times(s.x3, s.z2) == s.x3 * s.z2
  {
    TimesIs(s.x2, s.x3);
    TimesIs(s.z2, s.z3);
    TimesIs(s.x2, s.z3);
    TimesIs(s.x3, s.z2);
  }

  lemma {:induction false} CrossProducts(x2: int, z2: int, x3: int, z3: int)
    ensures (x3 - z3) * (x2 + z2) + (x3 + z3) * (x2 - z2) == 2 * (x2 * x3 - z2 * z3)
    ensures (x3 - z3) * (x2 + z2) - (x3 + z3) * (x2 - z2) == -2 * (x2 * z3 - x3 * z2)
  {
    assert (x3 - z3) * (x2 + z2) == x3 * x2 + x3 * z2 - z3 * x2 - z3 * z2;
    assert (x3 + z3) * (x2 - z2) == x3 * x2 - x3 * z2 + z3 * x2 - z3 * z2;
  }

  lemma {:induction false} TwiceSquared(v: int)
    ensures (2 * v) * (2 * v) == 4 * Square(v) && (-2 * v) * (-2 * v) == 4 * Square(v)
  {
    hide Times, Square;
    SquareIs(v);
  }

  lemma {:induction false} ScaledSquare(x: int, v: int)
    ensures x * (4 * Square(v)) == 4 * Times(x, Square(v))
  {
    hide Square, Times;
    TimesIs(x, Square(v));
  }

  /** x z (x^2 + A x z + z^2). */
  function Quartic(x: int, z: int): int
  {
    Times(Times(x, z), Square(x) + A * Times(x, z) + Square(z))
  }

  lemma {:induction false} QuarticIs(x: int, z: int)
    ensures Quartic(x, z) == (x * z) * (x * x + A * (x * z) + z * z)
  {
    hide Times, Square;
    TimesIs(x, z);
    SquareIs(x);
    SquareIs(z);
    TimesIs(x * z, x * x + A * (x * z) + z * z);
  }

  /** Doubling: x2' = (x2^2 - z2^2)^2 and z2' = 4 x2 z2 (x2^2 + A x2 z2 + z2^2). */
  lemma {:induction false} DoubleHalfLaw(s: Points)
    ensures Cong(DoubleHalf(s).0, Square(Square(s.x2) - Square(s.z2)), P)
    ensures Cong(DoubleHalf(s).1, 4 * Quartic(s.x2, s.z2), P)
  {
    hide Cong, FAdd, FSub, FMul, Times, Square, Quartic;
    var x, z := s.x2, s.z2;
    var a, b := FAdd(x, z), FSub(x, z);
    SumAndDifference(x, z);
    var p, q := (x + z) * (x + z), (x - z) * (x - z);
    MulCong(a, x + z, a, x + z);
    MulCong(b, x - z, b, x - z);
    DoubledCong(FMul(a, a), FMul(b, b), p, q);
    DoubledPolynomials(x, z);
  }

  /** The half after its squarings, aa and bb being p and q. */
  lemma {:induction false} DoubledCong(aa: int, bb: int, p: int, q: int)
    requires Cong(aa, p, P) && Cong(bb, q, P)
    ensures Cong(FMul(aa, bb), p * q, P)
    ensures var e := FSub(aa, bb); Cong(FMul(e, FAdd(aa, FMul(121665, e))), (p - q) * (p + 121665 * (p - q)), P)
  {
    hide Cong, FAdd, FSub, FMul;
    MulCong(aa, p, bb, q);
    AddCong(aa, p, bb, q);
    var e := FSub(aa, bb);
    CongSelf(121665, P);
    MulCong(121665, 121665, e, p - q);
    AddCong(aa, p, FMul(121665, e), 121665 * (p - q));
    MulCong(e, p - q, FAdd(aa, FMul(121665, e)), p + 121665 * (p - q));
  }

  lemma {:induction false} DoubledPolynomials(x: int, z: int)
    ensures var p, q := (x + z) * (x + z), (x - z) * (x - z);
            p * q == Square(Square(x) - Square(z)) && (p - q) * (p + 121665 * (p - q)) == 4 * Quartic(x, z)
  {
    hide Times, Square, Quartic;
    SquareIs(x);
    SquareIs(z);
    DoubledCoordinates(x, z);
    QuarticIs(x, z);
    MulAssoc(4, x * z, x * x + A * (x * z) + z * z);
  }

  lemma {:induction false} DoubledCoordinates(x: int, z: int)
    ensures ((x + z) * (x + z)) * ((x - z) * (x - z)) == Square(x * x - z * z)
    ensures (x + z) * (x + z) - (x - z) * (x - z) == 4 * (x * z)
    ensures (x + z) * (x + z) + 121665 * (4 * (x * z)) == x * x + A * (x * z) + z * z
  {
    hide Square, Times;
    SquareIs(x * x - z * z);
    SumTimesItself(x, z);
    MulSwap(x + z, x + z, x - z, x - z);
    SumAndDifferenceSquares(z, x);
  }

  lemma {:induction false} SumTimesItself(x: int, z: int)
    ensures (x + z) * (x - z) == x * x - z * z
  {
  }

  // ---- chords and tangents ----

  /** An affine point. */
  datatype Pt = Pt(x: int, y: int)

  /** x^3 + A x^2 + x. */
  function Cubic(x: int): int
  {
    Times(x, Square(x) + A * x + 1)
  }

  lemma {:induction false} CubicIs(x: int)
    ensures Cubic(x) == x * (x * x + A * x + 1)
  {
    SquareIs(x);
    TimesIs(x, x * x + A * x + 1);
  }

  ghost predicate OnCurve(p: Pt)
  {
    Cong(Square(p.y), Cubic(p.x), P)
  }

  function Negated(p: Pt): Pt
  {
    Pt(p.x, -p.y)
  }

  ghost predicate Inverse(x: int, w: int)
  {
    Cong(Times(x, w), 1, P)
  }

  ghost predicate Invertible(x: int)
  {
    exists w :: Inverse(x, w)
  }

  /** The line of slope l through p meets the curve again in the negative of r. */
  ghost predicate ThirdPoint(p: Pt, q: Pt, r: Pt, l: int)
  {
    Cong(r.x, Square(l) - (A + p.x + q.x), P) && Cong(r.y, Times(l, p.x - r.x) - p.y, P)
  }

  /** l is the slope of the line through p and q. */
  ghost predicate ChordSlope(p: Pt, q: Pt, l: int)
  {
    Cong(Times(l, q.x - p.x), q.y - p.y, P)
  }

  /** l is the slope of the tangent in p. */
  ghost predicate TangentSlope(p: Pt, l: int)
  {
    Cong(Times(l, 2 * p.y), 3 * Square(p.x) + 2 * A * p.x + 1, P)
  }

  /** r = p + q for points on no common vertical line. */
  ghost predicate Sum(p: Pt, q: Pt, r: Pt)
  {
    Invertible(q.x - p.x) && exists l :: ChordSlope(p, q, l) && ThirdPoint(p, q, r, l)
  }

  /** r = p + p for a point off the x-axis. */
  ghost predicate Double(p: Pt, r: Pt)
  {
    Invertible(2 * p.y) && exists l :: TangentSlope(p, l) && ThirdPoint(p, p, r, l)
  }

  /** (x : z) stands for the x-coordinate v. */
  ghost predicate Stands(x: int, z: int, v: int)
  {
    Cong(x, Times(v, z), P) && Invertible(z)
  }

  // ---- units ----

  lemma {:induction false} UnitProduct(x: int, y: int)
    requires Invertible(x) && Invertible(y)
    ensures Invertible(x * y)
  {
    hide Cong, Times;
    var v, w :| Inverse(x, v) && Inverse(y, w);
    TimesIs(x, v);
    TimesIs(y, w);
    TimesIs(x * y, v * w);
    CongMul(x * v, 1, y * w, 1, P);
    MulSwap(x, v, y, w);
    assert Inverse(x * y, v * w);
  }

  lemma {:induction false} UnitCong(x: int, y: int)
    requires Invertible(x) && Cong(x, y, P)
    ensures Invertible(y)
  {
    hide Cong, Times;
    var w :| Inverse(x, w);
    TimesIs(x, w);
    TimesIs(y, w);
    CongScale(x, y, w, P);
    CongSwap(x * w, y * w, P);
    CongTrans(y * w, x * w, 1, P);
    assert Inverse(y, w);
  }

  lemma {:induction false} FourUnit()
    ensures Invertible(4)
  {
    hide Times;
    var w := (1 - P) / 4;
    TimesIs(4, w);
    CongIntro(4 * w, 1, -1, P);
    assert Inverse(4, w);
  }

  /** A unit cancels. */
  lemma {:induction false} UnitCancels(a: int, b: int, d: int)
    requires Invertible(d) && Cong(a * d, b * d, P)
    ensures Cong(a, b, P)
  {
    hide Cong, Times;
    var w :| Inverse(d, w);
    TimesIs(d, w);
    CongScale(a * d, b * d, w, P);
    MulAssoc(a, d, w);
    MulAssoc(b, d, w);
    CongScale(d * w, 1, a, P);
    CongScale(d * w, 1, b, P);
    CongSwap(a * (d * w), a, P);
    CongTrans(a, a * (d * w), b * (d * w), P);
    CongTrans(a, b * (d * w), b, P);
  }

  // ---- the sum's and the difference's x-coordinates ----

  /** A slope l = v / d cleared of its denominator. */
  lemma {:induction false} Cleared(x: int, l: int, d: int, v: int, k: int)
    requires Cong(Times(l, d), v, P) && Cong(x, Square(l) - k, P)
    ensures Cong(x * Square(d), Square(v) - k * Square(d), P)
  {
    hide Cong, Square, Times;
    TimesIs(l, d);
    SquareIs(l);
    SquareIs(d);
    SquareIs(v);
    SquareIs(l * d);
    CongScale(x, Square(l) - k, Square(d), P);
    assert (Square(l) - k) * Square(d) == Square(l) * Square(d) - k * Square(d);
    MulSwap(l, l, d, d);
    CongMul(l * d, v, l * d, v, P);
    CongSelf(k * Square(d), P);
    CongAdd(Square(l * d), Square(v), k * Square(d), k * Square(d), P);
    CongTrans(x * Square(d), (Square(l) - k) * Square(d), Square(v) - k * Square(d), P);
  }

  lemma {:induction false} ConjugateSquares(y: int, y': int, t: int)
    ensures (Square(y' - y) - t) * (Square(y' + y) - t)
            == Square(Square(y') + Square(y) - t) - 4 * (Square(y) * Square(y'))
  {
    hide Square;
    SquareIs(y);
    SquareIs(y');
    SquareIs(y' - y);
    SquareIs(y' + y);
    var p, q := Square(y') + Square(y) - t, 2 * (y * y');
    SquareIs(p);
    SumAndDifferenceSquares(y, y');
    assert (p - q) * (p + q) == p * p - q * q;
    MulSwap(y, y', y, y');
    assert q * q == 4 * ((y * y') * (y * y'));
  }

  lemma {:induction false} SumAndDifferenceSquares(y: int, y': int)
    ensures (y' - y) * (y' - y) == y' * y' - 2 * (y * y') + y * y
    ensures (y' + y) * (y' + y) == y' * y' + 2 * (y * y') + y * y
  {
  }

  lemma {:induction false} CubicOpen(x: int)
    ensures Cubic(x) == x * (x * x) + A * (x * x) + x
  {
    hide Cubic;
    CubicIs(x);
    assert x * (x * x + A * x + 1) == x * (x * x) + x * (A * x) + x;
  }

  lemma {:induction false} SquareSum(x: int, x': int)
    ensures x * x + x' * x' == Square(x + x') - 2 * (x * x') && Square(x' - x) == Square(x + x') - 4 * (x * x')
  {
    hide Square;
    SquareIs(x + x');
    SquareIs(x' - x);
    SumAndDifferenceSquares(x, x');
  }

  lemma {:induction false} CubeSum(x: int, x': int)
    ensures var s, m := x + x', x * x'; x * (x * x) + x' * (x' * x') == s * Square(s) - 3 * (s * m)
  {
    hide Square;
    var s, m := x + x', x * x';
    SquareSum(x, x');
    var xx, yy := x * x, x' * x';
    assert s * Square(s) == s * (xx + yy) + 2 * (s * m);
    assert s * (xx + yy) == x * xx + x' * yy + s * m by { CrossTerms(x, x'); }
  }

  lemma {:induction false} CrossTerms(x: int, x': int)
    ensures (x + x') * (x * x + x' * x') == x * (x * x) + x' * (x' * x') + (x + x') * (x * x')
  {
    var xx, yy, m := x * x, x' * x', x * x';
    assert (x + x') * (xx + yy) == x * xx + x * yy + x' * xx + x' * yy;
    MulAssoc(x, x', x');
    MulAssoc(x', x, x);
    MulAssoc(x, x, x');
    assert x * yy == m * x' && x' * xx == m * x;
    assert (x + x') * m == m * x + m * x';
  }

  lemma {:induction false} LineTerm(s: int, q: int, m: int)
    ensures (A + s) * (q - 4 * m) == A * q - 4 * A * m + s * q - 4 * (s * m)
  {
  }

  /** Vieta on the curve, in s = x + x' and m = x x'. */
  lemma {:induction false} CubicSum(x: int, x': int)
    ensures var s, m := x + x', x * x';
            Cubic(x) + Cubic(x') - (A + x + x') * Square(x' - x) == s + s * m + 2 * A * m
  {
    hide Square, Cubic;
    var s, m := x + x', x * x';
    CubicOpen(x);
    CubicOpen(x');
    SquareSum(x, x');
    CubeSum(x, x');
    LineTerm(s, Square(s), m);
  }

  lemma {:induction false} CubicProduct(x: int, x': int)
    ensures var s, m := x + x', x * x';
            Cubic(x) * Cubic(x') == Times(m, m * m + A * (m * s) + (Square(s) - 2 * m) + A * A * m + A * s + 1)
  {
    hide Cubic, Square, Times;
    CubicIs(x);
    CubicIs(x');
    var g, g' := x * x + A * x + 1, x' * x' + A * x' + 1;
    MulSwap(x, g, x', g');
    Quadratics(x, x');
    TimesIs(x * x', g * g');
  }

  lemma {:induction false} Quadratics(x: int, x': int)
    ensures var s, m := x + x', x * x';
            (x * x + A * x + 1) * (x' * x' + A * x' + 1)
            == m * m + A * (m * s) + (Square(s) - 2 * m) + A * A * m + A * s + 1
  {
    hide Square;
    var s, m, xx, yy := x + x', x * x', x * x, x' * x';
    Distribute(xx, A * x, 1, yy, A * x', 1);
    MulSwap(x, x, x', x');
    MixedTerms(x, x');
    SquareSum(x, x');
  }

  lemma {:induction false} MixedTerms(x: int, x': int)
    ensures var m := x * x';
            (x * x) * (A * x') + (A * x) * (x' * x') == A * (m * (x + x')) && (A * x) * (A * x') == A * A * m
  {
    var m := x * x';
    MulSwap(x, x, A, x');
    MulSwap(A, x, x', x');
    assert (x * x) * (A * x') == (x * A) * m;
    assert (A * x) * (x' * x') == (A * x') * m by { MulSwap(A, x, x', x'); MulSwap(A, x', x, x'); }
    assert (x * A) * m + (A * x') * m == A * (m * (x + x'));
  }

  lemma {:induction false} Distribute(a: int, b: int, c: int, a': int, b': int, c': int)
    ensures (a + b + c) * (a' + b' + c')
            == a * a' + a * b' + a * c' + b * a' + b * b' + b * c' + c * a' + c * b' + c * c'
  {
    var t := a' + b' + c';
    assert (a + b + c) * t == a * t + b * t + c * t;
    assert a * t == a * a' + a * b' + a * c' && b * t == b * a' + b * b' + b * c' && c * t == c * a' + c * b' + c * c';
  }

  lemma {:induction false} SquareOfThree(a: int, b: int, c: int)
    ensures Square(a + b + c) == a * a + b * b + c * c + 2 * (a * b) + 2 * (a * c) + 2 * (b * c)
  {
    hide Square;
    SquareIs(a + b + c);
    Distribute(a, b, c, a, b, c);
  }

  lemma {:induction false} Discriminant(s: int, m: int)
    ensures Square(s + s * m + 2 * A * m)
            - 4 * Times(m, m * m + A * (m * s) + (Square(s) - 2 * m) + A * A * m + A * s + 1)
            == (Square(s) - 4 * m) * Square(m - 1)
  {
    hide Square, Times;
    SquareIs(s);
    DiscriminantLeft(s, m);
    DiscriminantProduct(s, m);
    DiscriminantRight(s * s, m);
    DiscriminantTerms(s * s, m * m, s * m, (s * s) * (m * m), (s * s) * m, s * (m * m), m * (m * m), m);
  }

  lemma {:induction false} DiscriminantTerms(ss: int, mm: int, sm: int, ssmm: int, ssm: int, smm: int, mmm: int, m: int)
    ensures ss + ssmm + 4 * A * A * mm + 2 * ssm + 4 * A * sm + 4 * A * smm
            - 4 * (mmm + A * smm + ssm - 2 * mm + A * A * mm + A * sm + m)
            == ssmm - 2 * ssm + ss - 4 * mmm + 8 * mm - 4 * m
  {
  }

  lemma {:induction false} DiscriminantLeft(s: int, m: int)
    ensures Square(s + s * m + 2 * A * m)
            == s * s + (s * s) * (m * m) + 4 * A * A * (m * m) + 2 * ((s * s) * m) + 4 * A * (s * m)
               + 4 * A * (s * (m * m))
  {
    hide Square;
    SquareOfThree(s, s * m, 2 * A * m);
    DiscriminantSquare(s, m);
  }

  lemma {:induction false} DiscriminantSquare(s: int, m: int)
    ensures var ss, mm, sm := s * s, m * m, s * m;
            sm * sm == ss * mm && s * sm == ss * m && s * (2 * A * m) == 2 * A * sm
            && sm * (2 * A * m) == 2 * A * (s * mm) && (2 * A * m) * (2 * A * m) == 4 * A * A * mm
  {
    MulSwap(s, m, s, m);
    MulAssoc(s, s, m);
    MulAssoc(s, m, m);
  }

  lemma {:induction false} SumTimes(m: int, a: int, b: int, c: int, d: int, e: int)
    ensures Times(m, a + b + c + d + e + 1) == Times(m, a) + Times(m, b) + Times(m, c) + Times(m, d) + Times(m, e) + m
  {
    hide Times;
    TimesIs(m, a + b + c + d + e + 1);
    TimesIs(m, a);
    TimesIs(m, b);
    TimesIs(m, c);
    TimesIs(m, d);
    TimesIs(m, e);
    assert m * (a + b + c + d + e + 1) == m * (a + b + c) + m * (d + e + 1);
  }

  lemma {:induction false} MixedTerm(s: int, m: int)
    ensures Times(m, A * (m * s)) == A * (s * (m * m))
  {
    hide Times;
    TimesIs(m, A * (m * s));
    MulAssoc(m, m, s);
  }

  lemma {:induction false} SquareTerm(ss: int, m: int)
    ensures Times(m, ss - 2 * m) == ss * m - 2 * (m * m)
  {
    hide Times;
    TimesIs(m, ss - 2 * m);
  }

  lemma {:induction false} OuterTerms(s: int, m: int)
    ensures Times(m, m * m) == m * (m * m) && Times(m, A * A * m) == A * A * (m * m) && Times(m, A * s) == A * (s * m)
  {
    hide Times;
    TimesIs(m, m * m);
    TimesIs(m, A * A * m);
    TimesIs(m, A * s);
  }

  lemma {:induction false} DiscriminantProduct(s: int, m: int)
    ensures var ss, mm, sm := s * s, m * m, s * m;
            Times(m, mm + A * (m * s) + (ss - 2 * m) + A * A * m + A * s + 1)
            == m * mm + A * (s * mm) + ss * m - 2 * mm + A * A * mm + A * sm + m
  {
    hide Times;
    SumTimes(m, m * m, A * (m * s), s * s - 2 * m, A * A * m, A * s);
    OuterTerms(s, m);
    MixedTerm(s, m);
    SquareTerm(s * s, m);
  }

  lemma {:induction false} DiscriminantRight(ss: int, m: int)
    ensures var mm := m * m;
            (ss - 4 * m) * Square(m - 1) == ss * mm - 2 * (ss * m) + ss - 4 * (m * mm) + 8 * mm - 4 * m
  {
    hide Square;
    SquareIs(m - 1);
    var mm := m * m;
    assert Square(m - 1) == mm - 2 * m + 1;
    assert ss * (mm - 2 * m + 1) == ss * mm - 2 * (ss * m) + ss;
    assert m * (mm - 2 * m + 1) == m * mm - 2 * mm + m;
    assert (ss - 4 * m) * (mm - 2 * m + 1) == ss * (mm - 2 * m + 1) - 4 * (m * (mm - 2 * m + 1));
  }

  /** The x-coordinates of p + q and q - p multiply to ((x x' - 1) / (x' - x))^2. */
  lemma {:induction false} SumTimesDifference(p: Pt, q: Pt, sum: Pt, dif: Pt)
    requires OnCurve(p) && OnCurve(q) && Sum(p, q, sum) && Sum(Negated(p), q, dif)
    ensures Cong(Times(Times(sum.x, dif.x), Square(q.x - p.x)), Square(Times(p.x, q.x) - 1), P)
  {
    hide Cong, Square, Cubic, Times;
    TimesIs(p.x, q.x);
    TimesIs(sum.x, dif.x);
    TimesIs(sum.x * dif.x, Square(q.x - p.x));
    var d, k := q.x - p.x, A + p.x + q.x;
    var l :| ChordSlope(p, q, l) && ThirdPoint(p, q, sum, l);
    var l' :| ChordSlope(Negated(p), q, l') && ThirdPoint(Negated(p), q, dif, l');
    Cleared(sum.x, l, d, q.y - p.y, k);
    Cleared(dif.x, l', d, q.y + p.y, k);
    var t := k * Square(d);
    CongMul(sum.x * Square(d), Square(q.y - p.y) - t, dif.x * Square(d), Square(q.y + p.y) - t, P);
    ConjugateSquares(p.y, q.y, t);
    OnCurveProduct(p, q, t);
    CurveIdentity(p.x, q.x);
    var left, right := (sum.x * Square(d)) * (dif.x * Square(d)), Square(d) * Square(p.x * q.x - 1);
    CongTrans(left, (Square(q.y - p.y) - t) * (Square(q.y + p.y) - t), right, P);
    SquareIs(d);
    UnitProduct(d, d);
    Regroup(sum.x, dif.x, Square(d));
    assert Square(d) * Square(p.x * q.x - 1) == Square(p.x * q.x - 1) * Square(d);
    UnitCancels(sum.x * dif.x * Square(d), Square(p.x * q.x - 1), Square(d));
  }

  lemma {:induction false} Regroup(a: int, b: int, c: int)
    ensures (a * c) * (b * c) == (a * b * c) * c
  {
    MulSwap(a, c, b, c);
    MulAssoc(a * b, c, c);
  }

  lemma {:induction false} OnCurveProduct(p: Pt, q: Pt, t: int)
    requires OnCurve(p) && OnCurve(q)
    ensures Cong(Square(Square(q.y) + Square(p.y) - t) - 4 * (Square(p.y) * Square(q.y)),
                 Square(Cubic(p.x) + Cubic(q.x) - t) - 4 * (Cubic(p.x) * Cubic(q.x)), P)
  {
    hide Cong, Cubic, Square;
    SquareIs(Square(q.y) + Square(p.y) - t);
    SquareIs(Cubic(p.x) + Cubic(q.x) - t);
    var y, y', f, f' := Square(p.y), Square(q.y), Cubic(p.x), Cubic(q.x);
    CongAdd(y', f', y, f, P);
    CongShift(y' + y, f' + f, -t, P);
    CongMul(y' + y - t, f + f' - t, y' + y - t, f + f' - t, P);
    CongMul(y, f, y', f', P);
    CongScale(y * y', f * f', 4, P);
    CongAdd(Square(y' + y - t), Square(f + f' - t), 4 * (y * y'), 4 * (f * f'), P);
  }

  lemma {:induction false} CurveIdentity(x: int, x': int)
    ensures Square(Cubic(x) + Cubic(x') - (A + x + x') * Square(x' - x)) - 4 * (Cubic(x) * Cubic(x'))
            == Square(x' - x) * Square(x * x' - 1)
  {
    hide Square, Cubic, Times;
    CubicSum(x, x');
    CubicProduct(x, x');
    Discriminant(x + x', x * x');
    SquareSum(x, x');
  }

  /** Twice a point has x-coordinate (x^2 - 1)^2 / 4 y^2. */
  lemma {:induction false} DoubledX(p: Pt, r: Pt)
    requires OnCurve(p) && Double(p, r)
    ensures Cong(Times(r.x, 4 * Cubic(p.x)), Square(Square(p.x) - 1), P)
  {
    hide Cong, Square, Cubic, Times;
    SquareIs(p.x);
    TimesIs(r.x, 4 * Cubic(p.x));
    var v, k := 3 * (p.x * p.x) + 2 * A * p.x + 1, A + p.x + p.x;
    var l :| TangentSlope(p, l) && ThirdPoint(p, p, r, l);
    Cleared(r.x, l, 2 * p.y, v, k);
    FourCubic(p);
    var f := 4 * Cubic(p.x);
    CongScale(Square(2 * p.y), f, r.x, P);
    CongScale(Square(2 * p.y), f, k, P);
    CongSelf(Square(v), P);
    CongAdd(Square(v), Square(v), k * Square(2 * p.y), k * f, P);
    CongSwap(r.x * Square(2 * p.y), r.x * f, P);
    CongTrans(r.x * f, r.x * Square(2 * p.y), Square(v) - k * Square(2 * p.y), P);
    CongTrans(r.x * f, Square(v) - k * Square(2 * p.y), Square(v) - k * f, P);
    TangentIdentity(p.x);
  }

  lemma {:induction false} FourCubic(p: Pt)
    requires OnCurve(p)
    ensures Cong(Square(2 * p.y), 4 * Cubic(p.x), P)
  {
    hide Cong, Cubic, Square;
    SquareIs(p.y);
    SquareIs(2 * p.y);
    assert Square(2 * p.y) == 4 * Square(p.y);
    CongScale(Square(p.y), Cubic(p.x), 4, P);
  }

  lemma {:induction false} TangentIdentity(x: int)
    ensures Square(3 * (x * x) + 2 * A * x + 1) - (A + x + x) * (4 * Cubic(x)) == Square(x * x - 1)
  {
    hide Square, Cubic;
    TangentSquare(x);
    TangentProduct(x);
    CubicOpen(x);
    UnitSquare(x * x);
  }

  lemma {:induction false} UnitSquare(xx: int)
    ensures Square(xx - 1) == xx * xx - 2 * xx + 1
  {
    hide Square;
    SquareIs(xx - 1);
  }

  lemma {:induction false} TangentSquare(x: int)
    ensures var xx := x * x;
            Square(3 * xx + 2 * A * x + 1)
            == 9 * (xx * xx) + 12 * A * (x * xx) + (4 * A * A + 6) * xx + 4 * A * x + 1
  {
    hide Square;
    var xx := x * x;
    SquareOfThree(3 * xx, 2 * A * x, 1);
    assert (3 * xx) * (3 * xx) == 9 * (xx * xx);
    assert (2 * A * x) * (2 * A * x) == 4 * A * A * xx;
    assert (3 * xx) * (2 * A * x) == 6 * A * (x * xx);
  }

  lemma {:induction false} TangentProduct(x: int)
    ensures var xx := x * x;
            (A + x + x) * (4 * Cubic(x)) == 4 * A * Cubic(x) + 8 * (xx * xx) + 8 * A * (x * xx) + 8 * xx
  {
    hide Cubic;
    var xx := x * x;
    CubicOpen(x);
    MulAssoc(x, x, xx);
    assert x * (x * xx + A * xx + x) == x * (x * xx) + A * (x * xx) + x * x;
    assert (A + x + x) * (4 * Cubic(x)) == 4 * A * Cubic(x) + 8 * (x * Cubic(x));
  }

  // ---- the step on the curve ----

  /** Coordinates x2 = v z2 and x3 = v' z3 in the differential addition. */
  lemma {:induction false} ScaledCross(x2: int, z2: int, v: int, x3: int, z3: int, v': int)
    requires Cong(x2, Times(v, z2), P) && Cong(x3, Times(v', z3), P)
    ensures Cong(x2 * x3 - z2 * z3, Times(z2 * z3, Times(v, v') - 1), P)
    ensures Cong(x2 * z3 - x3 * z2, Times(z2 * z3, v - v'), P)
  {
    hide Cong, Times;
    TimesIs(v, z2);
    TimesIs(v', z3);
    TimesIs(v, v');
    TimesIs(z2 * z3, v * v' - 1);
    TimesIs(z2 * z3, v - v');
    var z := z2 * z3;
    CongMul(x2, v * z2, x3, v' * z3, P);
    MulSwap(v, z2, v', z3);
    CongSelf(z, P);
    CongAdd(x2 * x3, (v * v') * z, z, z, P);
    assert (v * v') * z - z == z * (v * v' - 1);
    CongScale(x2, v * z2, z3, P);
    CongScale(x3, v' * z3, z2, P);
    assert (v * z2) * z3 == v * z by { MulAssoc(v, z2, z3); }
    assert (v' * z3) * z2 == v' * z by { MulAssoc(v', z3, z2); }
    CongAdd(x2 * z3, v * z, x3 * z2, v' * z, P);
    assert v * z - v' * z == z * (v - v');
  }

  lemma {:induction false} SquareCong(x: int, z: int, y: int)
    requires Cong(x, z * y, P)
    ensures Cong(Square(x), Square(z) * Square(y), P)
  {
    hide Cong, Square;
    SquareIs(x);
    SquareIs(z);
    SquareIs(y);
    CongMul(x, z * y, x, z * y, P);
    MulSwap(z, y, z, y);
  }

  /** The differential addition of two points on the curve is their sum, when x1 is the
      x-coordinate of their difference. */
  lemma {:induction false} AddsPoints(x1: int, s: Points, p: Pt, q: Pt, sum: Pt, dif: Pt)
    requires OnCurve(p) && OnCurve(q) && Sum(p, q, sum) && Sum(Negated(p), q, dif)
    requires Stands(s.x2, s.z2, p.x) && Stands(s.x3, s.z3, q.x) && Cong(x1, dif.x, P) && Invertible(x1)
    ensures Stands(AddHalf(x1, s).0, AddHalf(x1, s).1, sum.x)
  {
    hide Cong, Square, Invertible, AddHalf, OnCurve, Times;
    TimesIs(s.z2 * s.z3, p.x * q.x - 1);
    TimesIs(s.z2 * s.z3, p.x - q.x);
    TimesIs(sum.x, AddHalf(x1, s).1);
    CrossTimes(s);
    TimesIs(p.x, q.x);
    TimesIs(sum.x, dif.x);
    TimesIs(sum.x * dif.x, Square(q.x - p.x));
    var z, d, g := s.z2 * s.z3, q.x - p.x, Square(p.x * q.x - 1);
    AddHalfLaw(x1, s);
    ScaledCross(s.x2, s.z2, p.x, s.x3, s.z3, q.x);
    SquareCong(s.x2 * s.x3 - s.z2 * s.z3, z, p.x * q.x - 1);
    SquareCong(s.x2 * s.z3 - s.x3 * s.z2, z, p.x - q.x);
    SquareFlip(p.x, q.x);
    SumTimesDifference(p, q, sum, dif);
    AddsPointsX(AddHalf(x1, s).0, s.x2 * s.x3 - s.z2 * s.z3, Square(z), g);
    AddsPointsZ(AddHalf(x1, s).1, x1, dif.x, s.x2 * s.z3 - s.x3 * s.z2, Square(z), Square(d));
    Projected(AddHalf(x1, s).0, AddHalf(x1, s).1, sum.x, dif.x, Square(z), Square(d), g);
    SumUnits(x1, s.z2, s.z3, d, AddHalf(x1, s).1, p.x, q.x, dif.x);
  }

  lemma {:induction false} SquareFlip(x: int, y: int)
    ensures Square(x - y) == Square(y - x)
  {
    hide Square;
    SquareIs(x - y);
    SquareIs(y - x);
  }

  lemma {:induction false} AddsPointsX(a: int, u: int, zz: int, g: int)
    requires Cong(a, 4 * Square(u), P) && Cong(Square(u), zz * g, P)
    ensures Cong(a, 4 * (zz * g), P)
  {
    hide Cong, Square;
    CongScale(Square(u), zz * g, 4, P);
    CongTrans(a, 4 * Square(u), 4 * (zz * g), P);
  }

  lemma {:induction false} AddsPointsZ(b: int, x1: int, x: int, u: int, zz: int, dd: int)
    requires Cong(b, 4 * Times(x1, Square(u)), P) && Cong(Square(u), zz * dd, P) && Cong(x1, x, P)
    ensures Cong(b, 4 * (zz * (x * dd)), P)
  {
    hide Cong, Square, Times;
    TimesIs(x1, Square(u));
    CongScale(x1, x, 4, P);
    CongMul(4 * x1, 4 * x, Square(u), zz * dd, P);
    CongTrans(b, 4 * x1 * Square(u), 4 * x * (zz * dd), P);
    assert 4 * x * (zz * dd) == 4 * (zz * (x * dd)) by {
      MulAssoc(x, zz, dd);
      MulAssoc(zz, x, dd);
    }
  }

  /** a = 4 zz g, b = 4 zz x' dd and x x' dd = g: the quotient a / b is x. */
  lemma {:induction false} Projected(a: int, b: int, x: int, x': int, zz: int, dd: int, g: int)
    requires Cong(a, 4 * (zz * g), P) && Cong(b, 4 * (zz * (x' * dd)), P) && Cong(x * x' * dd, g, P)
    ensures Cong(a, x * b, P)
  {
    hide Cong;
    CongScale(x * x' * dd, g, 4 * zz, P);
    CongSwap((4 * zz) * (x * x' * dd), (4 * zz) * g, P);
    assert (4 * zz) * g == 4 * (zz * g);
    CongTrans(a, 4 * (zz * g), (4 * zz) * (x * x' * dd), P);
    CongScale(b, 4 * (zz * (x' * dd)), x, P);
    assert x * (4 * (zz * (x' * dd))) == (4 * zz) * (x * x' * dd) by {
      var t := x' * dd;
      MulAssoc(x, x', dd);
      MulSwap(4, zz, x, t);
      MulAssoc(x, zz, t);
      MulAssoc(zz, x, t);
      assert (4 * zz) * (x * t) == 4 * (zz * (x * t));
      assert x * (4 * (zz * t)) == 4 * (x * (zz * t));
    }
    CongSwap(x * b, (4 * zz) * (x * x' * dd), P);
    CongTrans(a, (4 * zz) * (x * x' * dd), x * b, P);
  }

  lemma {:induction false} SumUnits(x1: int, z2: int, z3: int, d: int, b: int, v: int, v': int, x: int)
    requires Invertible(x1) && Invertible(z2) && Invertible(z3) && Invertible(d) && d == v' - v && Cong(x1, x, P)
    requires Cong(b, 4 * (Square(z2 * z3) * (x * Square(d))), P)
    ensures Invertible(b)
  {
    hide Cong, Invertible, Square;
    FourUnit();
    UnitCong(x1, x);
    UnitProduct(z2, z3);
    SquareIs(z2 * z3);
    UnitProduct(z2 * z3, z2 * z3);
    SquareIs(d);
    UnitProduct(d, d);
    UnitProduct(x, Square(d));
    UnitProduct(Square(z2 * z3), x * Square(d));
    UnitProduct(4, Square(z2 * z3) * (x * Square(d)));
    CongSwap(b, 4 * (Square(z2 * z3) * (x * Square(d))), P);
    UnitCong(4 * (Square(z2 * z3) * (x * Square(d))), b);
  }

  /** Doubling a point on the curve. */
  lemma {:induction false} DoublesPoint(s: Points, p: Pt, r: Pt)
    requires OnCurve(p) && Double(p, r) && Stands(s.x2, s.z2, p.x)
    ensures Stands(DoubleHalf(s).0, DoubleHalf(s).1, r.x)
  {
    hide Cong, Square, Cubic, Invertible, DoubleHalf, Times, Quartic;
    var zz, f := Square(s.z2), 4 * Cubic(p.x);
    var a, b := DoubleHalf(s).0, DoubleHalf(s).1;
    TimesIs(r.x, b);
    DoubleHalfLaw(s);
    ScaledDouble(s.x2, s.z2, p.x);
    var g := Square(Square(p.x) - 1);
    TimesIs(Square(zz), g);
    TimesIs(Square(zz), f);
    TimesIs(r.x, f);
    CongTrans(a, Square(Square(s.x2) - Square(s.z2)), Square(zz) * g, P);
    CongTrans(b, 4 * Quartic(s.x2, s.z2), Square(zz) * f, P);
    DoubledX(p, r);
    Quotient(a, b, r.x, Square(zz), f, g);
    DoubleUnits(p, s.z2, b);
  }

  lemma {:induction false} Quotient(a: int, b: int, x: int, z: int, f: int, g: int)
    requires Cong(a, z * g, P) && Cong(b, z * f, P) && Cong(x * f, g, P)
    ensures Cong(a, x * b, P)
  {
    hide Cong;
    CongScale(x * f, g, z, P);
    CongScale(b, z * f, x, P);
    assert x * (z * f) == z * (x * f) by { MulAssoc(x, z, f); MulAssoc(z, x, f); }
    CongTrans(x * b, z * (x * f), z * g, P);
    CongSwap(x * b, z * g, P);
    CongTrans(a, z * g, x * b, P);
  }

  lemma {:induction false} DoubleUnits(p: Pt, z: int, b: int)
    requires OnCurve(p) && Invertible(2 * p.y) && Invertible(z) && Cong(b, Square(Square(z)) * (4 * Cubic(p.x)), P)
    ensures Invertible(b)
  {
    hide Cong, Cubic, Invertible, Square;
    SquareIs(z);
    SquareIs(Square(z));
    SquareIs(2 * p.y);
    UnitProduct(z, z);
    UnitProduct(Square(z), Square(z));
    UnitProduct(2 * p.y, 2 * p.y);
    FourCubic(p);
    UnitCong(Square(2 * p.y), 4 * Cubic(p.x));
    UnitProduct(Square(Square(z)), 4 * Cubic(p.x));
    CongSwap(b, Square(Square(z)) * (4 * Cubic(p.x)), P);
    UnitCong(Square(Square(z)) * (4 * Cubic(p.x)), b);
  }

  /** The doubling's polynomials at x = v z. */
  lemma {:induction false} ScaledDouble(x: int, z: int, v: int)
    requires Cong(x, Times(v, z), P)
    ensures Cong(Square(Square(x) - Square(z)), Times(Square(Square(z)), Square(Square(v) - 1)), P)
    ensures Cong(4 * Quartic(x, z), Times(Square(Square(z)), 4 * Cubic(v)), P)
  {
    hide Cong, Cubic, Square, Times, Quartic;
    SquareIs(x);
    SquareIs(z);
    SquareIs(v);
    TimesIs(v, z);
    CongMul(x, v * z, x, v * z, P);
    MulSwap(v, z, v, z);
    CongScale(x, v * z, z, P);
    MulAssoc(v, z, z);
    ScaledDoubleX(x, z, v);
    ScaledDoubleZ(x, z, v);
  }

  lemma {:induction false} ScaledDoubleX(x: int, z: int, v: int)
    requires Cong(Square(x), Square(v) * Square(z), P)
    ensures Cong(Square(Square(x) - Square(z)), Times(Square(Square(z)), Square(Square(v) - 1)), P)
  {
    hide Cong, Square, Times;
    var zz := Square(z);
    CongSelf(zz, P);
    CongAdd(Square(x), Square(v) * zz, zz, zz, P);
    assert Square(v) * zz - zz == zz * (Square(v) - 1);
    SquareCong(Square(x) - zz, zz, Square(v) - 1);
    TimesIs(Square(zz), Square(Square(v) - 1));
  }

  lemma {:induction false} ScaledDoubleZ(x: int, z: int, v: int)
    requires Cong(Square(x), Square(v) * Square(z), P) && Cong(x * z, v * Square(z), P)
    ensures Cong(4 * Quartic(x, z), Times(Square(Square(z)), 4 * Cubic(v)), P)
  {
    hide Cong, Cubic, Square, Times, Quartic;
    var t, xx, zz, vv := x * z, Square(x), Square(z), Square(v);
    SquareIs(x);
    SquareIs(z);
    SquareIs(v);
    QuarticIs(x, z);
    TimesIs(Square(zz), 4 * Cubic(v));
    QuarticCong(t, xx, zz, vv, v);
    CubicScaled(v, zz);
  }

  lemma {:induction false} QuarticCong(t: int, xx: int, zz: int, vv: int, v: int)
    requires Cong(xx, vv * zz, P) && Cong(t, v * zz, P)
    ensures Cong(4 * (t * (xx + A * t + zz)), (4 * (v * zz)) * (vv * zz + A * (v * zz) + zz), P)
  {
    hide Cong;
    var g, w := xx + A * t + zz, v * zz;
    CongScale(t, w, A, P);
    CongScale(t, w, 4, P);
    CongAdd(xx, vv * zz, A * t, A * w, P);
    CongShift(xx + A * t, vv * zz + A * w, zz, P);
    CongMul(4 * t, 4 * w, g, vv * zz + A * w + zz, P);
    MulAssoc(4, t, g);
  }

  lemma {:induction false} CubicScaled(v: int, zz: int)
    ensures (4 * (v * zz)) * ((v * v) * zz + A * (v * zz) + zz) == Square(zz) * (4 * Cubic(v))
  {
    hide Cubic, Square;
    CubicIs(v);
    SquareIs(zz);
    FactorOut(v, zz);
    MulSwap(v, zz, v * v + A * v + 1, zz);
    FourFold(v * zz, (v * v + A * v + 1) * zz, v * (v * v + A * v + 1), zz * zz);
  }

  lemma {:induction false} FactorOut(v: int, zz: int)
    ensures (v * v) * zz + A * (v * zz) + zz == (v * v + A * v + 1) * zz
  {
  }

  lemma {:induction false} FourFold(a: int, b: int, c: int, d: int)
    requires a * b == c * d
    ensures (4 * a) * b == d * (4 * c)
  {
    MulAssoc(4, a, b);
    MulAssoc(4, c, d);
  }

  // ---- the whole ladder ----

  /** The number that the bits of k from t on make. */
  ghost function Upper(k: int, t: nat): int
  {
    PowPos(2, t);
    k / Pow(2, t)
  }

  /** Where the ladder of scalar k goes from n: on to 2n or 2n + 1 by its next bit, each time
      with the next multiple beside it, and never through the point at infinity. */
  ghost predicate Passes(m: int -> Pt, n: int, bit: int)
  {
    OnCurve(m(n)) && OnCurve(m(n + 1)) && Sum(m(n), m(n + 1), m(2 * n + 1))
    && Sum(Negated(m(n)), m(n + 1), m(1)) && Double(m(n + bit), m(2 * (n + bit)))
  }

  /** m(n) is the n-fold sum of m(1), as far as the scalar k asks for it. */
  ghost predicate Multiples(m: int -> Pt, k: int)
  {
    OnCurve(m(1)) && Double(m(1), m(2))
    && forall t :: 0 <= t < 254 ==> Passes(m, Upper(k, t + 1), Bit(k, t))
  }

  /** Swapping the two points does not change their differential sum. */
  lemma {:induction false} AddHalfSymmetric(x1: int, s: Points, v: int)
    requires Stands(AddHalf(x1, s).0, AddHalf(x1, s).1, v)
    ensures Stands(AddHalf(x1, Swapped(s)).0, AddHalf(x1, Swapped(s)).1, v)
  {
    hide Cong, Square, Invertible, AddHalf, Times;
    CrossTimes(s);
    CrossTimes(Swapped(s));
    var (a, b) := AddHalf(x1, s);
    var (a', b') := AddHalf(x1, Swapped(s));
    AddHalfLaw(x1, s);
    AddHalfLaw(x1, Swapped(s));
    SquareFlip(s.x2 * s.z3, s.x3 * s.z2);
    var p, q := 4 * Square(s.x2 * s.x3 - s.z2 * s.z3), 4 * Times(x1, Square(s.x2 * s.z3 - s.x3 * s.z2));
    CongSwap(a, p, P);
    CongSwap(b', q, P);
    CongTrans(b, q, b', P);
    CongTrans(a', p, a, P);
    TimesIs(v, b);
    TimesIs(v, b');
    UnitCong(b, b');
    CongScale(b, b', v, P);
    CongTrans(a', a, v * b, P);
    CongTrans(a', v * b, v * b', P);
  }

  ghost predicate StandsFor(s: Points, p: Pt, q: Pt)
  {
    Stands(s.x2, s.z2, p.x) && Stands(s.x3, s.z3, q.x)
  }

  /** One bit of the ladder: from n and n + 1 to 2n + bit and 2n + bit + 1. */
  lemma {:induction false} BitStep(m: int -> Pt, u: int, s: Points, n: int, bit: int)
    requires 0 <= bit < 2 && Passes(m, n, bit) && StandsFor(s, m(n), m(n + 1)) && Cong(u, m(1).x, P) && Invertible(u)
    ensures var s' := if bit == 1 then Swapped(Step(u, Swapped(s))) else Step(u, s);
            StandsFor(s', m(2 * n + bit), m(2 * n + bit + 1))
  {
    hide Cong, Invertible, AddHalf, DoubleHalf, OnCurve, Stands, Sum, Double;
    AddsPoints(u, s, m(n), m(n + 1), m(2 * n + 1), m(1));
    if bit == 1 {
      AddHalfSymmetric(u, s, m(2 * n + 1).x);
      DoublesPoint(Swapped(s), m(n + 1), m(2 * n + 2));
    } else {
      DoublesPoint(s, m(n), m(2 * n));
    }
  }

  /** The first bit: from infinity and the point to the point and its double. */
  lemma {:induction false} FirstBit(m: int -> Pt, u: int)
    requires OnCurve(m(1)) && Double(m(1), m(2)) && Cong(u, m(1).x, P) && Invertible(u)
    ensures StandsFor(Swapped(Step(u, Swapped(Points(1, 0, u, 1)))), m(1), m(2))
  {
    hide Cong, Square, AddHalf, DoubleHalf, OnCurve, Double, Times;
    var s := Points(u, 1, 1, 0);
    CongSelf(1, P);
    TimesIs(1, 1);
    assert Inverse(1, 1);
    TimesIs(m(1).x, 1);
    DoublesPoint(s, m(1), m(2));
    AddHalfLaw(u, s);
    CrossTimes(s);
    SquareIs(u);
    SquareIs(-1);
    TimesIs(u, 1);
    var (a, b) := AddHalf(u, s);
    FourUnit();
    UnitProduct(4, u);
    CongSwap(b, 4 * u, P);
    UnitCong(4 * u, b);
    CongScale(u, m(1).x, 4 * u, P);
    CongScale(4 * u, b, m(1).x, P);
    assert 4 * (u * u) == u * (4 * u);
    CongTrans(a, u * (4 * u), m(1).x * (4 * u), P);
    CongTrans(a, m(1).x * (4 * u), m(1).x * b, P);
    TimesIs(m(1).x, b);
  }

  lemma {:induction false} NextBit(k: int, t: nat)
    ensures Upper(k, t) == 2 * Upper(k, t + 1) + Bit(k, t)
  {
    PowPos(2, t);
    DivDiv(k, Pow(2, t), 2);
    DivMod(k / Pow(2, t), 2);
  }

  lemma {:induction false} TopBit(k: int)
    requires TWO255 / 2 <= k < TWO255
    ensures Upper(k, 254) == 1 && Bit(k, 254) == 1
  {
    hide Pow;
    TwoTo254();
    DivModUnique(k, Pow(2, 254), 1, k - Pow(2, 254));
  }

  lemma {:induction false} TwoTo254()
    ensures Pow(2, 254) == TWO255 / 2
  {
    hide Pow;
    TwoTo64();
    PowAdd(2, 64, 64);
    PowAdd(2, 128, 64);
    PowAdd(2, 192, 62);
    PowAdd(2, 62, 2);
    PowOfTwo();
  }

  lemma {:induction false} PowOfTwo()
    ensures Pow(2, 2) == 4
  {
  }

  /** After the bits of k from 254 down to t, the two points are the multiples by the number
      those bits make and by the next one. */
  lemma {:induction false} LadderWalksMultiples(m: int -> Pt, u: int, k: int, t: nat)
    requires TWO255 / 2 <= k < TWO255 && t <= 254 && Multiples(m, k) && Cong(u, m(1).x, P) && Invertible(u)
    ensures var n := Upper(k, t); StandsFor(LadderAt(u, k, t), m(n), m(n + 1))
    decreases 254 - t
  {
    hide Cong, Invertible, Pow, Step, OnCurve, Double, Passes, StandsFor, Bit, Upper;
    if t == 254 {
      TopBit(k);
      FirstBit(m, u);
      assert LadderAt(u, k, 255) == Points(1, 0, u, 1);
    } else {
      LadderWalksMultiples(m, u, k, t + 1);
      NextBit(k, t);
      BitStep(m, u, LadderAt(u, k, t + 1), Upper(k, t + 1), Bit(k, t));
    }
  }

  /** The function's result is the x-coordinate of k times the point, wherever its last
      power is an inverse. */
  lemma {:induction false} X25519IsMultiple(m: int -> Pt, u: int, k: int)
    requires TWO255 / 2 <= k < TWO255 && Multiples(m, k) && Cong(u, m(1).x, P) && Invertible(u)
    ensures var z := LadderAt(u, k, 0).z2;
            Invertible(z) && (Inverse(z, Pow(z, P - 2)) ==> X25519(k, u) == m(k).x % P)
  {
    hide Cong, Invertible, Pow, LadderAt, Multiples, Upper, Times;
    LadderWalksMultiples(m, u, k, 0);
    WholeNumber(k);
    var s := LadderAt(u, k, 0);
    var zi := Pow(s.z2, P - 2);
    TimesIs(m(k).x, s.z2);
    TimesIs(s.z2, zi);
    if Inverse(s.z2, zi) {
      CongScale(s.x2, m(k).x * s.z2, zi, P);
      MulAssoc(m(k).x, s.z2, zi);
      CongScale(s.z2 * zi, 1, m(k).x, P);
      CongTrans(s.x2 * zi, m(k).x * (s.z2 * zi), m(k).x, P);
      CongMod(s.x2 * zi, m(k).x, P);
      TimesIs(s.x2, zi);
    }
  }

  lemma {:induction false} WholeNumber(k: int)
    ensures Upper(k, 0) == k
  {
  }
}
