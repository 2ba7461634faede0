/** Least-squares line fitting over the reals, as the sweep analysis does it. */
module LinearFit {
  import opened Wrappers

  type Terms = nat -> real

  /** `f(0) + ... + f(n - 1)` */
  function Total(n: nat, f: Terms): real
  {
    if n == 0 then 0.0 else Total(n - 1, f) + f(n - 1)
  }

  function At(xs: seq<real>): Terms
  {
    (i: nat) => if i < |xs| then xs[i] else 0.0
  }

  function Mean(xs: seq<real>): real
    requires xs != []
  {
    Total(|xs|, At(xs)) / |xs| as real
  }

  /** The distances from `m`. */
  function Offsets(xs: seq<real>, m: real): Terms
  {
    (i: nat) => At(xs)(i) - m
  }

  function Products(f: Terms, g: Terms): Terms
  {
    (i: nat) => f(i) * g(i)
  }

  /** How far each point is above the line `y = a * x + b`. */
  function Residuals(xs: seq<real>, ys: seq<real>, a: real, b: real): Terms
  {
    (i: nat) => At(ys)(i) - (a * At(xs)(i) + b)
  }

  function SquaredError(xs: seq<real>, ys: seq<real>, a: real, b: real): real
  {
    var r := Residuals(xs, ys, a, b);
    Total(|xs|, Products(r, r))
  }

  function Sxx(xs: seq<real>): real
    requires xs != []
  {
    var u := Offsets(xs, Mean(xs));
    Total(|xs|, Products(u, u))
  }

  function Sxy(xs: seq<real>, ys: seq<real>): real
    requires xs != [] && |xs| == |ys|
  {
    Total(|xs|, Products(Offsets(xs, Mean(xs)), Offsets(ys, Mean(ys))))
  }

  // ---------------------------------------------------------------- the fit

  /** Slope, intercept and R squared; `None` is not a number. */
  datatype Fit = Fit(slope: real, intercept: real, r2: Option<real>)

  function Linfit(xs: seq<real>, ys: seq<real>): Option<Fit>
    requires |xs| == |ys|
  {
    if |xs| < 2 then None
    else if Sxx(xs) == 0.0 then None
    else
      var a := Sxy(xs, ys) / Sxx(xs);
      var b := Mean(ys) - a * Mean(xs);
      var ssTot, ssRes := Sxx(ys), SquaredError(xs, ys, a, b);
      Some(Fit(a, b, if ssTot != 0.0 then Some(1.0 - ssRes / ssTot) else None))
  }

  // ---------------------------------------------------------------- arithmetic

  lemma Distribute(k: real, s: real, t: real)
    ensures k * (s + t) == k * s + k * t && (s + t) * k == s * k + t * k
  {}

  lemma MulZero(k: real, w: real)
    requires w == 0.0
    ensures k * w == 0.0 && w * k == 0.0
  {}

  lemma DivTimes(x: real, y: real)
    requires y != 0.0
    ensures x / y * y == x
  {}

  lemma Positive(x: real, y: real)
    requires x > 0.0 && y > 0.0
    ensures x * y > 0.0
  {}

  /** A product of factors of the same sign. */
  lemma SameSign(x: real, y: real) returns (s: real)
    requires (x > 0.0 ==> y > 0.0) && (x < 0.0 ==> y < 0.0)
    ensures s == x * y && s >= 0.0
    ensures x != 0.0 ==> s > 0.0
    ensures x == 0.0 ==> s == 0.0
  {
    s := x * y;
    if x > 0.0 {
      Positive(x, y);
    } else if x < 0.0 {
      Positive(-x, -y);
      assert s == (-x) * (-y);
    } else {
      MulZero(y, x);
    }
  }

  lemma Square(x: real) returns (s: real)
    ensures s == x * x && s >= 0.0
    ensures x != 0.0 ==> s > 0.0
    ensures x == 0.0 ==> s == 0.0
  {
    s := SameSign(x, x);
  }

  lemma MulNonNegative(x: real, y: real) returns (z: real)
    requires x >= 0.0 && y > 0.0
    ensures z == x * y && z >= 0.0
    ensures x > 0.0 ==> z > 0.0
    ensures x == 0.0 ==> z == 0.0
  {
    z := x * y;
    if x > 0.0 {
      Positive(x, y);
    }
  }

  lemma SquareOfSum(r: real, p: real, u: real, e: real)
    ensures (r + p * u + e) * (r + p * u + e) ==
      r * r + p * p * (u * u) + e * e + 2.0 * p * (r * u) + 2.0 * e * r + 2.0 * (p * e) * u
  {
    var q := p * u;
    assert (r + q + e) * (r + q + e) == r * r + q * q + e * e + 2.0 * (r * q) + 2.0 * (e * r) + 2.0 * (q * e);
    assert q * q == p * p * (u * u);
    assert r * q == p * (r * u);
    assert q * e == p * e * u;
  }

  // ---------------------------------------------------------------- sums

  ghost predicate Combines(n: nat, h: Terms, f: Terms, k: real, g: Terms)
  {
    forall i :: 0 <= i < n ==> h(i) == f(i) - k * g(i)
  }

  lemma {:induction false} TotalCombines(n: nat, h: Terms, f: Terms, k: real, g: Terms)
    requires Combines(n, h, f, k, g)
    ensures Total(n, h) == Total(n, f) - k * Total(n, g)
  {
    if n > 0 {
      TotalCombines(n - 1, h, f, k, g);
      Distribute(k, Total(n - 1, g), g(n - 1));
    }
  }

  lemma OneMore(n: nat, k: real)
    requires n > 0
    ensures n as real * k == (n - 1) as real * k + k
  {
    var m := (n - 1) as real;
    assert n as real == m + 1.0;
    Distribute(k, m, 1.0);
  }

  lemma {:induction false} TotalOffsets(n: nat, xs: seq<real>, m: real)
    ensures Total(n, Offsets(xs, m)) == Total(n, At(xs)) - n as real * m
  {
    if n > 0 {
      TotalOffsets(n - 1, xs, m);
      OneMore(n, m);
    }
  }

  lemma {:induction false} TotalResiduals(n: nat, xs: seq<real>, ys: seq<real>, a: real, b: real)
    ensures Total(n, Residuals(xs, ys, a, b)) == Total(n, At(ys)) - a * Total(n, At(xs)) - n as real * b
  {
    if n > 0 {
      TotalResiduals(n - 1, xs, ys, a, b);
      Distribute(a, Total(n - 1, At(xs)), At(xs)(n - 1));
      OneMore(n, b);
    }
  }

  function Plus(f: Terms, k: real, g: Terms): Terms
  {
    (i: nat) => f(i) + k * g(i)
  }

  function PlusConstant(f: Terms, c: real): Terms
  {
    (i: nat) => f(i) + c
  }

  lemma {:induction false} TotalPlus(n: nat, f: Terms, k: real, g: Terms)
    ensures Total(n, Plus(f, k, g)) == Total(n, f) + k * Total(n, g)
  {
    if n == 0 {
      MulZero(k, Total(n, g));
    } else {
      TotalPlus(n - 1, f, k, g);
      Distribute(k, Total(n - 1, g), g(n - 1));
    }
  }

  lemma TotalPlusNothing(n: nat, f: Terms, k: real, g: Terms)
    requires Total(n, g) == 0.0
    ensures Total(n, Plus(f, k, g)) == Total(n, f)
  {
    TotalPlus(n, f, k, g);
    MulZero(k, Total(n, g));
  }

  lemma {:induction false} TotalPlusConstant(n: nat, f: Terms, c: real)
    ensures Total(n, PlusConstant(f, c)) == Total(n, f) + n as real * c
  {
    if n == 0 {
      MulZero(c, n as real);
    } else {
      TotalPlusConstant(n - 1, f, c);
      OneMore(n, c);
    }
  }

  lemma {:induction false} SameTotal(n: nat, f: Terms, g: Terms)
    requires forall i :: 0 <= i < n ==> f(i) == g(i)
    ensures Total(n, f) == Total(n, g)
  {
    if n > 0 {
      SameTotal(n - 1, f, g);
    }
  }

  /** The terms of `(r(i) + p * u(i) + e)` squared, the ones that matter at a fit first. */
  function SquareTerms(r: Terms, u: Terms, pp: real, ee: real, p2: real, e2: real, pe2: real): Terms
  {
    Plus(Plus(Plus(PlusConstant(Plus(Products(r, r), pp, Products(u, u)), ee), p2, Products(r, u)), e2, r), pe2, u)
  }

  lemma SquareTermsTotal(n: nat, r: Terms, u: Terms, pp: real, ee: real, p2: real, e2: real, pe2: real)
    requires Total(n, Products(r, u)) == 0.0 && Total(n, r) == 0.0 && Total(n, u) == 0.0
    ensures Total(n, SquareTerms(r, u, pp, ee, p2, e2, pe2)) ==
      Total(n, Products(r, r)) + pp * Total(n, Products(u, u)) + n as real * ee
  {
    var f0 := Plus(Products(r, r), pp, Products(u, u));
    var f1 := PlusConstant(f0, ee);
    var f2 := Plus(f1, p2, Products(r, u));
    TotalPlus(n, Products(r, r), pp, Products(u, u));
    TotalPlusConstant(n, f0, ee);
    TotalPlusNothing(n, f1, p2, Products(r, u));
    TotalPlusNothing(n, f2, e2, r);
    TotalPlusNothing(n, Plus(f2, e2, r), pe2, u);
  }

  ghost predicate SameSigns(n: nat, f: Terms, g: Terms)
  {
    forall i :: 0 <= i < n ==> (f(i) > 0.0 ==> g(i) > 0.0) && (f(i) < 0.0 ==> g(i) < 0.0)
  }

  lemma {:induction false} ProductsNonNegative(n: nat, f: Terms, g: Terms)
    requires SameSigns(n, f, g)
    ensures Total(n, Products(f, g)) >= 0.0
    ensures Total(n, Products(f, g)) == 0.0 ==> forall i :: 0 <= i < n ==> f(i) == 0.0
    ensures (forall i :: 0 <= i < n ==> f(i) == 0.0) ==> Total(n, Products(f, g)) == 0.0
  {
    if n > 0 {
      ProductsNonNegative(n - 1, f, g);
      var product := SameSign(f(n - 1), g(n - 1));
      assert Total(n, Products(f, g)) == Total(n - 1, Products(f, g)) + product;
    }
  }

  lemma SquaresNonNegative(n: nat, f: Terms)
    ensures Total(n, Products(f, f)) >= 0.0
    ensures Total(n, Products(f, f)) == 0.0 ==> forall i :: 0 <= i < n ==> f(i) == 0.0
    ensures (forall i :: 0 <= i < n ==> f(i) == 0.0) ==> Total(n, Products(f, f)) == 0.0
  {
    ProductsNonNegative(n, f, f);
  }

  // ---------------------------------------------------------------- optimality

  lemma MeanTimes(xs: seq<real>)
    requires xs != []
    ensures |xs| as real * Mean(xs) == Total(|xs|, At(xs))
  {
    DivTimes(Total(|xs|, At(xs)), |xs| as real);
  }

  lemma ThroughMeans(n: real, a: real, b: real, mx: real, my: real, tx: real, ty: real)
    requires b == my - a * mx && n * mx == tx && n * my == ty
    ensures ty - a * tx - n * b == 0.0
  {
    var q := a * mx;
    assert n * b == n * my - n * q;
    assert n * q == a * (n * mx);
  }

  lemma ResidualThroughMeans(x: real, y: real, a: real, b: real, mx: real, my: real)
    requires b == my - a * mx
    ensures (y - (a * x + b)) * (x - mx) == (x - mx) * (y - my) - a * ((x - mx) * (x - mx))
  {
    var u, v := x - mx, y - my;
    assert a * u == a * x - a * mx;
    assert y - (a * x + b) == v - a * u;
    assert (v - a * u) * u == u * v - a * (u * u);
  }

  lemma WeightedResiduals(xs: seq<real>, ys: seq<real>, a: real, b: real, mx: real, my: real)
    requires |xs| == |ys| && b == my - a * mx
    ensures var u, v := Offsets(xs, mx), Offsets(ys, my);
      Total(|xs|, Products(Residuals(xs, ys, a, b), u)) == Total(|xs|, Products(u, v)) - a * Total(|xs|, Products(u, u))
  {
    var u, v := Offsets(xs, mx), Offsets(ys, my);
    WeightedTerms(xs, ys, a, b, mx, my);
    TotalCombines(|xs|, Products(Residuals(xs, ys, a, b), u), Products(u, v), a, Products(u, u));
  }

  lemma WeightedTerms(xs: seq<real>, ys: seq<real>, a: real, b: real, mx: real, my: real)
    requires |xs| == |ys| && b == my - a * mx
    ensures var u, v := Offsets(xs, mx), Offsets(ys, my);
      Combines(|xs|, Products(Residuals(xs, ys, a, b), u), Products(u, v), a, Products(u, u))
  {
    var u, v := Offsets(xs, mx), Offsets(ys, my);
    var h, f, g := Products(Residuals(xs, ys, a, b), u), Products(u, v), Products(u, u);
    forall i | 0 <= i < |xs| ensures h(i) == f(i) - a * g(i) {
      WeightedTerm(xs, ys, a, b, mx, my, i);
    }
  }

  lemma WeightedTerm(xs: seq<real>, ys: seq<real>, a: real, b: real, mx: real, my: real, i: nat)
    requires |xs| == |ys| && b == my - a * mx && i < |xs|
    ensures var u, v := Offsets(xs, mx), Offsets(ys, my);
      Products(Residuals(xs, ys, a, b), u)(i) == Products(u, v)(i) - a * Products(u, u)(i)
  {
    var x, y := At(xs)(i), At(ys)(i);
    assert Residuals(xs, ys, a, b)(i) == y - (a * x + b);
    assert Offsets(xs, mx)(i) == x - mx && Offsets(ys, my)(i) == y - my;
    ResidualThroughMeans(x, y, a, b, mx, my);
  }

  lemma RatioCancels(x: real, y: real, q: real)
    requires y != 0.0 && q == x / y
    ensures x - q * y == 0.0
  {
    DivTimes(x, y);
  }

  /** The residuals of a line through the means cancel out. */
  lemma ResidualsCancel(xs: seq<real>, ys: seq<real>, a: real, b: real, mx: real, my: real)
    requires |xs| == |ys| && b == my - a * mx
    requires |xs| as real * mx == Total(|xs|, At(xs)) && |xs| as real * my == Total(|xs|, At(ys))
    ensures Total(|xs|, Residuals(xs, ys, a, b)) == 0.0
  {
    TotalResiduals(|xs|, xs, ys, a, b);
    ThroughMeans(|xs| as real, a, b, mx, my, Total(|xs|, At(xs)), Total(|xs|, At(ys)));
  }

  /** The residuals of the fitted line cancel out, also weighted by the distance from the mean. */
  lemma NormalEquations(xs: seq<real>, ys: seq<real>)
    requires |xs| == |ys| && Linfit(xs, ys).Some?
    ensures var f := Linfit(xs, ys).value;
      var r := Residuals(xs, ys, f.slope, f.intercept);
      Total(|xs|, r) == 0.0 && Total(|xs|, Products(r, Offsets(xs, Mean(xs)))) == 0.0
  {
    var f := Linfit(xs, ys).value;
    MeanTimes(xs);
    MeanTimes(ys);
    RatioCancels(Sxy(xs, ys), Sxx(xs), f.slope);
    ResidualsCancel(xs, ys, f.slope, f.intercept, Mean(xs), Mean(ys));
    WeightedResiduals(xs, ys, f.slope, f.intercept, Mean(xs), Mean(ys));
  }

  lemma Regroup(x: real, y: real, a: real, b: real, c: real, d: real, mx: real, p: real, e: real)
    requires p == a - c && e == p * mx + (b - d)
    ensures y - (c * x + d) == (y - (a * x + b)) + p * (x - mx) + e
  {
    assert p * (x - mx) == p * x - p * mx;
    assert (a - c) * x == a * x - c * x;
  }

  lemma SquareTermAt(r: Terms, u: Terms, pp: real, ee: real, p2: real, e2: real, pe2: real, i: nat)
    ensures SquareTerms(r, u, pp, ee, p2, e2, pe2)(i) ==
      r(i) * r(i) + pp * (u(i) * u(i)) + ee + p2 * (r(i) * u(i)) + e2 * r(i) + pe2 * u(i)
  {}

  /** The square of `t`, being `r + p * u + e`. */
  lemma SquareOfMoved(t: real, r: real, p: real, u: real, e: real, pp: real, ee: real)
    requires t == r + p * u + e && pp == p * p && ee == e * e
    ensures t * t == r * r + pp * (u * u) + ee + 2.0 * p * (r * u) + 2.0 * e * r + 2.0 * (p * e) * u
  {
    SquareOfSum(r, p, u, e);
  }

  /** The squared residual of one line in terms of the residual of another, point by point. */
  lemma PointExpands(xs: seq<real>, ys: seq<real>, a: real, b: real, c: real, d: real, mx: real, p: real, e: real,
                     pp: real, ee: real, i: nat)
    requires |xs| == |ys| && i < |xs| && p == a - c && e == p * mx + (b - d) && pp == p * p && ee == e * e
    ensures var r, u, t := Residuals(xs, ys, a, b), Offsets(xs, mx), Residuals(xs, ys, c, d);
      Products(t, t)(i) == SquareTerms(r, u, pp, ee, 2.0 * p, 2.0 * e, 2.0 * (p * e))(i)
  {
    var r, u, t := Residuals(xs, ys, a, b), Offsets(xs, mx), Residuals(xs, ys, c, d);
    Regroup(At(xs)(i), At(ys)(i), a, b, c, d, mx, p, e);
    SquareOfMoved(t(i), r(i), p, u(i), e, pp, ee);
    SquareTermAt(r, u, pp, ee, 2.0 * p, 2.0 * e, 2.0 * (p * e), i);
  }

  /** The error of any line against one whose residuals cancel. */
  lemma ErrorVersus(xs: seq<real>, ys: seq<real>, a: real, b: real, c: real, d: real, mx: real, p: real, e: real,
                    pp: real, ee: real)
    requires |xs| == |ys| && p == a - c && e == p * mx + (b - d) && pp == p * p && ee == e * e
    requires var r, u := Residuals(xs, ys, a, b), Offsets(xs, mx);
      Total(|xs|, Products(r, u)) == 0.0 && Total(|xs|, r) == 0.0 && Total(|xs|, u) == 0.0
    ensures var u := Offsets(xs, mx);
      SquaredError(xs, ys, c, d) == SquaredError(xs, ys, a, b) + pp * Total(|xs|, Products(u, u)) + |xs| as real * ee
  {
    var r, u, t := Residuals(xs, ys, a, b), Offsets(xs, mx), Residuals(xs, ys, c, d);
    var p2, e2, pe2 := 2.0 * p, 2.0 * e, 2.0 * (p * e);
    forall i | 0 <= i < |xs| ensures Products(t, t)(i) == SquareTerms(r, u, pp, ee, p2, e2, pe2)(i) {
      PointExpands(xs, ys, a, b, c, d, mx, p, e, pp, ee, i);
    }
    SameTotal(|xs|, Products(t, t), SquareTerms(r, u, pp, ee, p2, e2, pe2));
    SquareTermsTotal(|xs|, r, u, pp, ee, p2, e2, pe2);
  }

  /** Any other line is worse, by a gap that is nothing only for the same line. */
  lemma GapOfLine(xs: seq<real>, ys: seq<real>, a: real, b: real, c: real, d: real, mx: real) returns (gap: real)
    requires |xs| == |ys| && xs != []
    requires var r, u := Residuals(xs, ys, a, b), Offsets(xs, mx);
      && Total(|xs|, Products(r, u)) == 0.0 && Total(|xs|, r) == 0.0 && Total(|xs|, u) == 0.0
      && Total(|xs|, Products(u, u)) > 0.0
    ensures SquaredError(xs, ys, c, d) == SquaredError(xs, ys, a, b) + gap
    ensures gap >= 0.0
    ensures gap == 0.0 ==> a == c && b == d
    ensures a == c && b == d ==> gap == 0.0
  {
    var u := Offsets(xs, mx);
    var p := a - c;
    var e := p * mx + (b - d);
    if p == 0.0 {
      MulZero(mx, p);
    }
    var pp := Square(p);
    var ee := Square(e);
    ErrorVersus(xs, ys, a, b, c, d, mx, p, e, pp, ee);
    var s := MulNonNegative(pp, Total(|xs|, Products(u, u)));
    var t := MulNonNegative(ee, |xs| as real);
    gap := s + t;
  }

  lemma OffsetsCancel(xs: seq<real>)
    requires xs != []
    ensures Total(|xs|, Offsets(xs, Mean(xs))) == 0.0
  {
    TotalOffsets(|xs|, xs, Mean(xs));
    MeanTimes(xs);
  }

  /** No line has a smaller squared error than the fitted one, and no other line has the same. */
  lemma FitIsBest(xs: seq<real>, ys: seq<real>, c: real, d: real)
    requires |xs| == |ys| && Linfit(xs, ys).Some?
    ensures var f := Linfit(xs, ys).value;
      && SquaredError(xs, ys, f.slope, f.intercept) <= SquaredError(xs, ys, c, d)
      && (SquaredError(xs, ys, f.slope, f.intercept) == SquaredError(xs, ys, c, d)
        <==> c == f.slope && d == f.intercept)
  {
    var f := Linfit(xs, ys).value;
    NormalEquations(xs, ys);
    OffsetsCancel(xs);
    SquaresNonNegative(|xs|, Offsets(xs, Mean(xs)));
    var gap := GapOfLine(xs, ys, f.slope, f.intercept, c, d, Mean(xs));
  }

  // ---------------------------------------------------------------- when there is a fit

  predicate AllEqual(xs: seq<real>)
  {
    forall i, j :: 0 <= i < j < |xs| ==> xs[i] == xs[j]
  }

  lemma {:induction false} TotalOfEqual(n: nat, xs: seq<real>, x: real)
    requires n <= |xs| && forall i :: 0 <= i < n ==> xs[i] == x
    ensures Total(n, At(xs)) == n as real * x
  {
    if n > 0 {
      TotalOfEqual(n - 1, xs, x);
      OneMore(n, x);
    }
  }

  lemma SpreadIsZeroExactly(xs: seq<real>)
    requires xs != []
    ensures Sxx(xs) >= 0.0
    ensures Sxx(xs) == 0.0 <==> AllEqual(xs)
  {
    var u := Offsets(xs, Mean(xs));
    SquaresNonNegative(|xs|, u);
    if Sxx(xs) == 0.0 {
      assert forall i :: 0 <= i < |xs| ==> u(i) == xs[i] - Mean(xs);
    }
    if AllEqual(xs) {
      TotalOfEqual(|xs|, xs, xs[0]);
      MeanTimes(xs);
      Cancel(|xs| as real, Mean(xs), xs[0]);
    }
  }

  lemma Cancel(n: real, x: real, y: real)
    requires n > 0.0 && n * x == n * y
    ensures x == y
  {
    assert n * (x - y) == n * x - n * y && n * (y - x) == n * y - n * x;
    if x > y {
      Positive(n, x - y);
    } else if y > x {
      Positive(n, y - x);
    }
  }

  /** There is a fit exactly for points that do not all have the same `x`. */
  lemma FitsExactly(xs: seq<real>, ys: seq<real>)
    requires |xs| == |ys|
    ensures Linfit(xs, ys).Some? <==> !AllEqual(xs)
  {
    if xs != [] {
      SpreadIsZeroExactly(xs);
    }
  }

  // ---------------------------------------------------------------- R squared

  predicate OnLine(xs: seq<real>, ys: seq<real>, a: real, b: real)
    requires |xs| == |ys|
  {
    forall i :: 0 <= i < |xs| ==> ys[i] == a * xs[i] + b
  }

  lemma NoErrorOnLine(xs: seq<real>, ys: seq<real>, a: real, b: real)
    requires |xs| == |ys|
    ensures SquaredError(xs, ys, a, b) >= 0.0
    ensures SquaredError(xs, ys, a, b) == 0.0 <==> OnLine(xs, ys, a, b)
  {
    var r := Residuals(xs, ys, a, b);
    SquaresNonNegative(|xs|, r);
    forall i | 0 <= i < |xs| ensures r(i) == ys[i] - (a * xs[i] + b) {
      assert At(xs)(i) == xs[i] && At(ys)(i) == ys[i];
    }
  }

  /** The spread of the `y` values is the error of the flat line at their mean. */
  lemma SpreadIsFlatError(xs: seq<real>, ys: seq<real>)
    requires |xs| == |ys| && ys != []
    ensures Sxx(ys) == SquaredError(xs, ys, 0.0, Mean(ys))
  {
    var r, u := Residuals(xs, ys, 0.0, Mean(ys)), Offsets(ys, Mean(ys));
    forall i | 0 <= i < |xs| ensures Products(r, r)(i) == Products(u, u)(i) {
      MulZero(xs[i], 0.0);
      assert r(i) == u(i);
    }
    SameTotal(|xs|, Products(r, r), Products(u, u));
  }

  lemma Ratio(part: real, whole: real)
    requires 0.0 <= part <= whole && whole > 0.0
    ensures 0.0 <= part / whole <= 1.0 && (part / whole == 0.0 <==> part == 0.0)
  {
    DivTimes(part, whole);
  }

  lemma SameProducts(n: nat, f: Terms, g: Terms)
    requires forall i :: 0 <= i < n ==> f(i) == g(i)
    ensures Total(n, Products(f, f)) == Total(n, Products(g, g))
  {
    SameTotal(n, Products(f, f), Products(g, g));
  }

  lemma OneMinusRatio(part: real, whole: real)
    requires whole != 0.0
    ensures (1.0 - part / whole) * whole == whole - part
  {
    DivTimes(part, whole);
    Distribute(whole, 1.0, -(part / whole));
    assert -(part / whole) * whole == -(part / whole * whole);
  }

  /** The squared error of a line is the sum of the squared distances of the points above it. */
  lemma ErrorIs(xs: seq<real>, ys: seq<real>, a: real, b: real, fromLine: Terms)
    requires |xs| == |ys|
    requires forall i :: 0 <= i < |xs| ==> fromLine(i) == ys[i] - (a * xs[i] + b)
    ensures SquaredError(xs, ys, a, b) == Total(|ys|, Products(fromLine, fromLine))
  {
    var r := Residuals(xs, ys, a, b);
    forall i | 0 <= i < |xs| ensures r(i) == fromLine(i) {
      assert At(xs)(i) == xs[i] && At(ys)(i) == ys[i];
    }
    SameProducts(|xs|, r, fromLine);
  }

  /** The spread of values is the sum of their squared distances from the mean. */
  lemma SpreadIs(ys: seq<real>, mean: real, fromMean: Terms)
    requires ys != [] && mean == Total(|ys|, At(ys)) / |ys| as real
    requires forall i :: 0 <= i < |ys| ==> fromMean(i) == ys[i] - mean
    ensures Sxx(ys) == Total(|ys|, Products(fromMean, fromMean))
  {
    var u := Offsets(ys, mean);
    forall i | 0 <= i < |ys| ensures u(i) == fromMean(i) {
      assert At(ys)(i) == ys[i];
    }
    SameProducts(|ys|, u, fromMean);
  }

  lemma RatioOfSpreads(xs: seq<real>, ys: seq<real>, f: Fit) returns (ssTot: real, ssRes: real)
    requires |xs| == |ys| && ys != [] && Linfit(xs, ys) == Some(f) && f.r2.Some?
    ensures ssTot == Sxx(ys) && ssRes == SquaredError(xs, ys, f.slope, f.intercept)
    ensures f.r2.value * ssTot == ssTot - ssRes
  {
    ssTot, ssRes := Sxx(ys), SquaredError(xs, ys, f.slope, f.intercept);
    OneMinusRatio(ssRes, ssTot);
  }

  /** Given what the two sums are. */
  lemma RatioWrittenOut(xs: seq<real>, ys: seq<real>, f: Fit, mean: real, fromMean: Terms, fromLine: Terms,
                        ssTot: real, ssRes: real)
    requires |xs| == |ys| && ys != []
    requires ssTot == Sxx(ys) && ssRes == SquaredError(xs, ys, f.slope, f.intercept)
    requires mean == Total(|ys|, At(ys)) / |ys| as real
    requires forall i :: 0 <= i < |ys| ==> fromMean(i) == ys[i] - mean
    requires forall i :: 0 <= i < |xs| ==> fromLine(i) == ys[i] - (f.slope * xs[i] + f.intercept)
    ensures ssTot == Total(|ys|, Products(fromMean, fromMean))
    ensures ssRes == Total(|ys|, Products(fromLine, fromLine))
  {
    SpreadIs(ys, mean, fromMean);
    ErrorIs(xs, ys, f.slope, f.intercept, fromLine);
  }

  /**
   R squared times the squared distances of the `y` values from their mean is what is left of them when
   the squared distances from the fitted line are taken away.
   */
  lemma RSquaredIs(xs: seq<real>, ys: seq<real>, f: Fit, mean: real, fromMean: Terms, fromLine: Terms)
    returns (ssTot: real, ssRes: real)
    requires |xs| == |ys| && ys != [] && Linfit(xs, ys) == Some(f) && f.r2.Some?
    requires mean == Total(|ys|, At(ys)) / |ys| as real
    requires forall i :: 0 <= i < |ys| ==> fromMean(i) == ys[i] - mean
    requires forall i :: 0 <= i < |xs| ==> fromLine(i) == ys[i] - (f.slope * xs[i] + f.intercept)
    ensures ssTot == Total(|ys|, Products(fromMean, fromMean))
    ensures ssRes == Total(|ys|, Products(fromLine, fromLine))
    ensures f.r2.value * ssTot == ssTot - ssRes
  {
    ssTot, ssRes := RatioOfSpreads(xs, ys, f);
    RatioWrittenOut(xs, ys, f, mean, fromMean, fromLine, ssTot, ssRes);
  }

  /**
   R squared is there exactly when the `y` values are not all the same; it lies between 0 and 1, and it
   is 1 exactly when the points lie on one line.
   */
  lemma RSquared(xs: seq<real>, ys: seq<real>)
    requires |xs| == |ys| && Linfit(xs, ys).Some?
    ensures var f := Linfit(xs, ys).value;
      && (f.r2.Some? <==> !AllEqual(ys))
      && (f.r2.Some? ==> 0.0 <= f.r2.value <= 1.0)
      && (f.r2.Some? ==> (f.r2.value == 1.0 <==> exists c, d :: OnLine(xs, ys, c, d)))
  {
    var f := Linfit(xs, ys).value;
    SpreadIsZeroExactly(ys);
    SpreadIsFlatError(xs, ys);
    FitIsBest(xs, ys, 0.0, Mean(ys));
    NoErrorOnLine(xs, ys, f.slope, f.intercept);
    if f.r2.Some? {
      Ratio(SquaredError(xs, ys, f.slope, f.intercept), Sxx(ys));
      if c, d :| OnLine(xs, ys, c, d) {
        NoErrorOnLine(xs, ys, c, d);
        FitIsBest(xs, ys, c, d);
      }
    }
  }
}
