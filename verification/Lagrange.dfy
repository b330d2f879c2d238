/**
 Polynomial interpolation over the reals: Lagrange's formula, as the ephemeris code evaluates it,
 reproduces every polynomial of degree less than the number of nodes.
 */
module Lagrange {

  /** Coefficients, constant term first. */
  type Poly = seq<real>

  function Eval(p: Poly, t: real): real {
    if p == [] then 0.0 else p[0] + t * Eval(p[1..], t)
  }

  predicate Distinct(xs: seq<real>) {
    forall i, j :: 0 <= i < j < |xs| ==> xs[i] != xs[j]
  }

  // The factors of weight `j` that come from the first `m` nodes.
  function Weight(xs: seq<real>, j: nat, t: real, m: nat): real
    requires Distinct(xs) && j < |xs| && m <= |xs|
  {
    if m == 0 then 1.0
    else if m - 1 == j then Weight(xs, j, t, m - 1)
    else Weight(xs, j, t, m - 1) * ((t - xs[m - 1]) / (xs[j] - xs[m - 1]))
  }

  // The first `n` terms of the interpolation formula.
  function Terms(xs: seq<real>, ys: seq<real>, t: real, n: nat): real
    requires Distinct(xs) && |ys| == |xs| && n <= |xs|
  {
    if n == 0 then 0.0 else Terms(xs, ys, t, n - 1) + Weight(xs, n - 1, t, |xs|) * ys[n - 1]
  }

  /** The value at `t` interpolated from the values `ys` at the nodes `xs`. */
  function Interpolated(xs: seq<real>, ys: seq<real>, t: real): real
    requires Distinct(xs) && |ys| == |xs|
  {
    Terms(xs, ys, t, |xs|)
  }

  // ---------------------------------------------------------------------------------------
  // Polynomial arithmetic
  // ---------------------------------------------------------------------------------------

  function Scale(p: Poly, a: real): (r: Poly)
    ensures |r| == |p|
  {
    if p == [] then [] else [a * p[0]] + Scale(p[1..], a)
  }

  function Add(p: Poly, q: Poly): (r: Poly)
    ensures |r| == if |p| > |q| then |p| else |q|
  {
    if p == [] then q else if q == [] then p else [p[0] + q[0]] + Add(p[1..], q[1..])
  }

  // `p` times `a + b t`.
  function TimesLinear(p: Poly, a: real, b: real): (r: Poly)
    ensures |r| == |p| + 1
  {
    Add(Scale(p, a), [0.0] + Scale(p, b))
  }

  lemma {:induction false} EvalScale(p: Poly, a: real, t: real)
    ensures Eval(Scale(p, a), t) == a * Eval(p, t)
  {
    if p != [] {
      EvalScale(p[1..], a, t);
      hide Eval, Scale;
      EvalSplit(p, t);
      EvalSplit(Scale(p, a), t);
      ScaleSplit(p, a);
      Horner(a, p[0], t, Eval(p[1..], t));
    }
  }

  lemma EvalSplit(p: Poly, t: real)
    requires p != []
    ensures Eval(p, t) == p[0] + t * Eval(p[1..], t)
  {
  }

  lemma ScaleSplit(p: Poly, a: real)
    requires p != []
    ensures Scale(p, a)[0] == a * p[0] && Scale(p, a)[1..] == Scale(p[1..], a)
  {
  }

  lemma Horner(a: real, x: real, t: real, e: real)
    ensures a * (x + t * e) == a * x + t * (a * e)
  {
    Distribute(a, x, t * e);
    Swap(a, t, e);
  }

  lemma Distribute(a: real, x: real, y: real)
    ensures a * (x + y) == a * x + a * y
  {
  }

  lemma Swap(a: real, t: real, e: real)
    ensures a * (t * e) == t * (a * e)
  {
  }

  lemma {:induction false} EvalAdd(p: Poly, q: Poly, t: real)
    ensures Eval(Add(p, q), t) == Eval(p, t) + Eval(q, t)
  {
    if p != [] && q != [] {
      EvalAdd(p[1..], q[1..], t);
      assert Add(p, q)[1..] == Add(p[1..], q[1..]);
      Distribute(t, Eval(p[1..], t), Eval(q[1..], t));
    }
  }

  lemma EvalTimesLinear(p: Poly, a: real, b: real, t: real)
    ensures Eval(TimesLinear(p, a, b), t) == Eval(p, t) * (a + b * t)
  {
    var e, shifted := Eval(p, t), [0.0] + Scale(p, b);
    EvalAdd(Scale(p, a), shifted, t);
    EvalScale(p, a, t);
    EvalScale(p, b, t);
    assert shifted[1..] == Scale(p, b);
    assert Eval(shifted, t) == t * (b * e);
    LinearFactor(e, a, b, t);
  }

  lemma LinearFactor(e: real, a: real, b: real, t: real)
    ensures a * e + t * (b * e) == e * (a + b * t)
  {
  }

  // ---------------------------------------------------------------------------------------
  // A polynomial with more roots than its degree vanishes
  // ---------------------------------------------------------------------------------------

  // The quotient of `p` by `t - a`.
  function Deflate(p: Poly, a: real): (q: Poly)
    ensures |q| == if p == [] then 0 else |p| - 1
  {
    if |p| <= 1 then [] else Add(p[1..], Scale(Deflate(p[1..], a), a))
  }

  // A product whose factors the verifier need not look into.
  function Times(x: real, y: real): real {
    x * y
  }

  lemma {:induction false} EvalDeflate(p: Poly, a: real, t: real)
    ensures Eval(p, t) == Eval(p, a) + Times(t - a, Eval(Deflate(p, a), t))
  {
    if |p| > 1 {
      hide *;
      var rest := p[1..];
      var q := Deflate(rest, a);
      EvalDeflate(rest, a, t);
      EvalAdd(rest, Scale(q, a), t);
      ScaleTimes(q, a, t);
      EvalCons(p, t);
      EvalCons(p, a);
      DeflateCons(p, a);
      DivisionStep(p[0], Eval(rest, t), Eval(rest, a), Eval(q, t), a, t);
    } else if |p| == 1 {
      assert p[1..] == [];
    }
  }

  lemma EvalCons(p: Poly, t: real)
    requires p != []
    ensures Eval(p, t) == p[0] + Times(t, Eval(p[1..], t))
  {
  }

  lemma ScaleTimes(p: Poly, a: real, t: real)
    ensures Eval(Scale(p, a), t) == Times(a, Eval(p, t))
  {
    EvalScale(p, a, t);
  }

  lemma DeflateCons(p: Poly, a: real)
    requires |p| > 1
    ensures Deflate(p, a) == Add(p[1..], Scale(Deflate(p[1..], a), a))
  {
  }

  lemma DivisionStep(c: real, et: real, ea: real, q: real, a: real, t: real)
    requires et == ea + Times(t - a, q)
    ensures c + Times(t, et) == (c + Times(a, ea)) + Times(t - a, et + Times(a, q))
  {
    assert a * et == a * (ea + (t - a) * q) == a * ea + a * ((t - a) * q);
    assert (t - a) * (et + a * q) == (t - a) * et + (t - a) * (a * q);
    assert a * ((t - a) * q) == (t - a) * (a * q);
    assert (t - a) * et == t * et - a * et;
  }

  lemma {:induction false} TooManyRoots(p: Poly, xs: seq<real>, t: real)
    requires Distinct(xs) && |p| <= |xs|
    requires forall i :: 0 <= i < |xs| ==> Eval(p, xs[i]) == 0.0
    ensures Eval(p, t) == 0.0
    decreases |xs|
  {
    if p != [] {
      var n := |xs| - 1;
      var a, q := xs[n], Deflate(p, xs[n]);
      forall i | 0 <= i < n ensures Eval(q, xs[i]) == 0.0 {
        EvalDeflate(p, a, xs[i]);
        NoZeroDivisors(xs[i] - a, Eval(q, xs[i]));
      }
      TooManyRoots(q, xs[..n], t);
      EvalDeflate(p, a, t);
    }
  }

  lemma NoZeroDivisors(x: real, y: real)
    requires x != 0.0 && x * y == 0.0
    ensures y == 0.0
  {
    assert y == (x * y) / x;
  }

  // ---------------------------------------------------------------------------------------
  // The formula as a polynomial
  // ---------------------------------------------------------------------------------------

  function WeightPoly(xs: seq<real>, j: nat, m: nat): (p: Poly)
    requires Distinct(xs) && j < |xs| && m <= |xs|
    ensures |p| == if j < m then m else m + 1
  {
    if m == 0 then [1.0]
    else if m - 1 == j then WeightPoly(xs, j, m - 1)
    else
      var d := xs[j] - xs[m - 1];
      TimesLinear(WeightPoly(xs, j, m - 1), -xs[m - 1] / d, 1.0 / d)
  }

  lemma {:induction false} EvalWeightPoly(xs: seq<real>, j: nat, m: nat, t: real)
    requires Distinct(xs) && j < |xs| && m <= |xs|
    ensures Eval(WeightPoly(xs, j, m), t) == Weight(xs, j, t, m)
    decreases m
  {
    if m == 0 {
      assert [1.0][1..] == [];
    } else {
      EvalWeightPoly(xs, j, m - 1, t);
      if m - 1 != j {
        hide Eval, TimesLinear, Weight, WeightPoly, Times;
        var d := xs[j] - xs[m - 1];
        WeightStep(xs, j, m, t);
        TimesQuotient(WeightPoly(xs, j, m - 1), xs[m - 1], d, t);
      }
    }
  }

  lemma WeightStep(xs: seq<real>, j: nat, m: nat, t: real)
    requires Distinct(xs) && j < |xs| && 0 < m <= |xs| && m - 1 != j
    ensures Weight(xs, j, t, m) == Times(Weight(xs, j, t, m - 1), (t - xs[m - 1]) / (xs[j] - xs[m - 1]))
    ensures var d := xs[j] - xs[m - 1];
            d != 0.0 && WeightPoly(xs, j, m) == TimesLinear(WeightPoly(xs, j, m - 1), -xs[m - 1] / d, 1.0 / d)
  {
  }

  lemma TimesQuotient(p: Poly, x: real, d: real, t: real)
    requires d != 0.0
    ensures Eval(TimesLinear(p, -x / d, 1.0 / d), t) == Times(Eval(p, t), (t - x) / d)
  {
    hide Eval, TimesLinear;
    EvalTimesLinear(p, -x / d, 1.0 / d, t);
    Quotient(t, x, d);
  }

  lemma Quotient(t: real, x: real, d: real)
    requires d != 0.0
    ensures -x / d + 1.0 / d * t == (t - x) / d
  {
  }

  function TermsPoly(xs: seq<real>, ys: seq<real>, n: nat): (p: Poly)
    requires Distinct(xs) && |ys| == |xs| && n <= |xs|
    ensures |p| == if n == 0 then 0 else |xs|
  {
    if n == 0 then [] else Add(TermsPoly(xs, ys, n - 1), Scale(WeightPoly(xs, n - 1, |xs|), ys[n - 1]))
  }

  lemma {:induction false} EvalTermsPoly(xs: seq<real>, ys: seq<real>, n: nat, t: real)
    requires Distinct(xs) && |ys| == |xs| && n <= |xs|
    ensures Eval(TermsPoly(xs, ys, n), t) == Terms(xs, ys, t, n)
    decreases n
  {
    hide Eval, WeightPoly, Weight, Add, Scale, Terms, Times, TermsPoly, Distinct;
    if n == 0 {
      NoTerms(xs, ys, t);
    } else {
      EvalTermsPoly(xs, ys, n - 1, t);
      EvalTermsStep(xs, ys, n, t);
    }
  }

  lemma NoTerms(xs: seq<real>, ys: seq<real>, t: real)
    requires Distinct(xs) && |ys| == |xs|
    ensures Eval(TermsPoly(xs, ys, 0), t) == Terms(xs, ys, t, 0)
  {
  }

  lemma EvalTermsStep(xs: seq<real>, ys: seq<real>, n: nat, t: real)
    requires Distinct(xs) && |ys| == |xs| && 0 < n <= |xs|
    requires Eval(TermsPoly(xs, ys, n - 1), t) == Terms(xs, ys, t, n - 1)
    ensures Eval(TermsPoly(xs, ys, n), t) == Terms(xs, ys, t, n)
  {
    hide Eval, WeightPoly, Weight, Add, Scale, Terms, Times, TermsPoly, Distinct;
    var w := WeightPoly(xs, n - 1, |xs|);
    EvalAdd(TermsPoly(xs, ys, n - 1), Scale(w, ys[n - 1]), t);
    ScaleTimes(w, ys[n - 1], t);
    EvalWeightPoly(xs, n - 1, |xs|, t);
    TermsStep(xs, ys, t, n);
  }

  lemma TermsStep(xs: seq<real>, ys: seq<real>, t: real, n: nat)
    requires Distinct(xs) && |ys| == |xs| && 0 < n <= |xs|
    ensures Terms(xs, ys, t, n) == Terms(xs, ys, t, n - 1) + Times(ys[n - 1], Weight(xs, n - 1, t, |xs|))
    ensures TermsPoly(xs, ys, n) == Add(TermsPoly(xs, ys, n - 1), Scale(WeightPoly(xs, n - 1, |xs|), ys[n - 1]))
  {
    hide Weight, WeightPoly, Add, Scale;
  }

  // ---------------------------------------------------------------------------------------
  // At the nodes
  // ---------------------------------------------------------------------------------------

  // At node `i`, weight `i` is one and every other weight is zero.
  lemma {:induction false} WeightAtNode(xs: seq<real>, j: nat, i: nat, m: nat)
    requires Distinct(xs) && j < |xs| && i < |xs| && m <= |xs|
    ensures i == j ==> Weight(xs, j, xs[i], m) == 1.0
    ensures i != j && i < m ==> Weight(xs, j, xs[i], m) == 0.0
    decreases m
  {
    if m > 0 {
      WeightAtNode(xs, j, i, m - 1);
      FactorAtNode(xs, j, i, m);
      hide Weight;
    }
  }

  // What one factor makes of a weight at node `i`.
  lemma FactorAtNode(xs: seq<real>, j: nat, i: nat, m: nat)
    requires Distinct(xs) && j < |xs| && i < |xs| && 0 < m <= |xs|
    ensures m - 1 == j || i == j ==> Weight(xs, j, xs[i], m) == Weight(xs, j, xs[i], m - 1)
    ensures m - 1 == i != j ==> Weight(xs, j, xs[i], m) == 0.0
    ensures Weight(xs, j, xs[i], m - 1) == 0.0 ==> Weight(xs, j, xs[i], m) == 0.0
  {
    if m - 1 != j {
      WeightStep(xs, j, m, xs[i]);
      hide Weight, WeightPoly, Times;
      var w, d := Weight(xs, j, xs[i], m - 1), xs[j] - xs[m - 1];
      TimesFraction(w, xs[i] - xs[m - 1], d);
    }
  }

  lemma TimesFraction(w: real, x: real, d: real)
    requires d != 0.0
    ensures w == 0.0 || x == 0.0 ==> Times(w, x / d) == 0.0
    ensures x == d ==> Times(w, x / d) == w
  {
  }

  lemma {:induction false} TermsAtNode(xs: seq<real>, ys: seq<real>, i: nat, n: nat)
    requires Distinct(xs) && |ys| == |xs| && i < |xs| && n <= |xs|
    ensures Terms(xs, ys, xs[i], n) == if i < n then ys[i] else 0.0
    decreases n
  {
    if n > 0 {
      TermsAtNode(xs, ys, i, n - 1);
      WeightAtNode(xs, n - 1, i, |xs|);
    }
  }

  /** At every node, interpolation returns the stored value. */
  lemma InterpolatesNodes(xs: seq<real>, ys: seq<real>, i: nat)
    requires Distinct(xs) && |ys| == |xs| && i < |xs|
    ensures Interpolated(xs, ys, xs[i]) == ys[i]
  {
    TermsAtNode(xs, ys, i, |xs|);
  }

  /** Values sampled from a polynomial of degree less than the number of nodes give its value anywhere. */
  lemma InterpolationIsExact(xs: seq<real>, ys: seq<real>, p: Poly, t: real)
    requires Distinct(xs) && |ys| == |xs| && |p| <= |xs|
    requires forall i :: 0 <= i < |xs| ==> ys[i] == Eval(p, xs[i])
    ensures Interpolated(xs, ys, t) == Eval(p, t)
  {
    hide Eval, Weight, Terms, Add, Scale, TermsPoly;
    var whole := TermsPoly(xs, ys, |xs|);
    var diff := Add(whole, Scale(p, -1.0));
    forall x: real ensures Eval(diff, x) == Interpolated(xs, ys, x) - Eval(p, x) {
      EvalAdd(whole, Scale(p, -1.0), x);
      EvalScale(p, -1.0, x);
      EvalTermsPoly(xs, ys, |xs|, x);
    }
    forall i | 0 <= i < |xs| ensures Eval(diff, xs[i]) == 0.0 {
      InterpolatesNodes(xs, ys, i);
    }
    TooManyRoots(diff, xs, t);
  }

  /** The weights always add up to one. */
  lemma WeightsSumToOne(xs: seq<real>, ys: seq<real>, t: real)
    requires Distinct(xs) && |ys| == |xs| > 0 && forall i :: 0 <= i < |ys| ==> ys[i] == 1.0
    ensures Interpolated(xs, ys, t) == 1.0
  {
    assert [1.0][1..] == [];
    forall x: real ensures Eval([1.0], x) == 1.0 {}
    InterpolationIsExact(xs, ys, [1.0], t);
  }

  // ---------------------------------------------------------------------------------------
  // Change of origin
  // ---------------------------------------------------------------------------------------

  /** `p(t + s)` as a polynomial in `t`. */
  function Shifted(p: Poly, s: real): (r: Poly)
    ensures |r| == |p|
  {
    if |p| <= 1 then p else Add([p[0]], TimesLinear(Shifted(p[1..], s), s, 1.0))
  }

  lemma {:induction false} EvalShifted(p: Poly, s: real, t: real)
    ensures Eval(Shifted(p, s), t) == Eval(p, t + s)
  {
    if |p| == 1 {
      assert p[1..] == [];
    } else if |p| > 1 {
      hide Add, TimesLinear;
      var q := Shifted(p[1..], s);
      EvalShifted(p[1..], s, t);
      EvalAdd([p[0]], TimesLinear(q, s, 1.0), t);
      EvalTimesLinear(q, s, 1.0, t);
      assert [p[0]][1..] == [];
    }
  }
}
