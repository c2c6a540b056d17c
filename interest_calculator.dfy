/** The two calculations the tool makes of a list of yearly percentage
    returns: the geometric-mean annualized return, and the value an
    investment reaches when it is run through those returns with yearly
    withdrawals and contributions. Amounts and returns are exact reals. */
module InterestCalculator {
  import opened Failures

  /** The growth factor of one year with percentage return `r`. */
  function Factor(r: real): real
  {
    1.0 + r / 100.0
  }

  /** Sum of a list, left to right. */
  function Sum(s: seq<real>): real
  {
    if |s| == 0 then 0.0 else Sum(s[..|s| - 1]) + s[|s| - 1]
  }

  lemma SumAppend(s: seq<real>, x: real)
    ensures Sum(s + [x]) == Sum(s) + x
  {
    assert (s + [x])[..|s|] == s;
  }

  /** The product of the growth factors of a list of returns. */
  function Growth(rs: seq<real>): (g: real)
    ensures AboveTotalLoss(rs) ==> g > 0.0
  {
    if |rs| == 0 then 1.0 else Growth(rs[..|rs| - 1]) * Factor(rs[|rs| - 1])
  }

  /** `x` to the `n`-th power. */
  function Pow(x: real, n: nat): real
  {
    if n == 0 then 1.0 else Pow(x, n - 1) * x
  }

  /** `n` copies of `x`; no copies when `n` is not positive. */
  function Repeat(x: real, n: int): (s: seq<real>)
    ensures |s| == if n > 0 then n else 0
    ensures forall i :: 0 <= i < |s| ==> s[i] == x
  {
    seq(if n > 0 then n else 0, _ => x)
  }

  // ---------------------------------------------------------------------
  // Investment value
  // ---------------------------------------------------------------------

  /** The number of years the three lists run in lock-step: the length of
      the shortest, as when zipping them. */
  function Periods(rs: seq<real>, cs: seq<real>, ws: seq<real>): (n: nat)
    ensures n <= |rs| && n <= |cs| && n <= |ws|
    ensures n == |rs| || n == |cs| || n == |ws|
  {
    if |rs| <= |cs| && |rs| <= |ws| then |rs| else if |cs| <= |ws| then |cs| else |ws|
  }

  /** One year: take the withdrawal out, grow what remains, add the contribution. */
  function Step(v: real, r: real, c: real, w: real): real
  {
    (v - w) * Factor(r) + c
  }

  /** The value of `principal` after the years the three lists share, folded
      left over the years in order. */
  function InvestmentValue(principal: real, rs: seq<real>, cs: seq<real>, ws: seq<real>): real
    decreases Periods(rs, cs, ws)
  {
    var n := Periods(rs, cs, ws);
    if n == 0 then principal
    else Step(InvestmentValue(principal, rs[..n - 1], cs[..n - 1], ws[..n - 1]), rs[n - 1], cs[n - 1], ws[n - 1])
  }

  /** The fold as the program runs it, updating the value year by year. */
  method CalculateInvestmentValue(principal: real, rs: seq<real>, cs: seq<real>, ws: seq<real>)
    returns (endValue: real)
    ensures endValue == InvestmentValue(principal, rs, cs, ws)
  {
    endValue := principal;
    var n := Periods(rs, cs, ws);
    for i := 0 to n
      invariant endValue == InvestmentValue(principal, rs[..i], cs[..i], ws[..i])
    {
      assert rs[..i + 1][..i] == rs[..i] && cs[..i + 1][..i] == cs[..i] && ws[..i + 1][..i] == ws[..i];
      endValue := endValue - ws[i];
      endValue := endValue * Factor(rs[i]);
      endValue := endValue + cs[i];
    }
    TruncatedLists(principal, rs, cs, ws);
  }

  /** Only the years all three lists have matter: the value is that of the
      lists cut to their common length. */
  lemma {:induction false} TruncatedLists(principal: real, rs: seq<real>, cs: seq<real>, ws: seq<real>)
    ensures var n := Periods(rs, cs, ws);
            InvestmentValue(principal, rs, cs, ws) == InvestmentValue(principal, rs[..n], cs[..n], ws[..n])
  {
    var n := Periods(rs, cs, ws);
    if n > 0 {
      assert rs[..n][..n - 1] == rs[..n - 1] && cs[..n][..n - 1] == cs[..n - 1] && ws[..n][..n - 1] == ws[..n - 1];
    }
  }

  /** With no years to run, the principal is returned unchanged. */
  lemma NoPeriods(principal: real, rs: seq<real>, cs: seq<real>, ws: seq<real>)
    requires |rs| == 0 || |cs| == 0 || |ws| == 0
    ensures InvestmentValue(principal, rs, cs, ws) == principal
  {
  }

  /** Return lists that agree on the years the schedules cover give the same
      value: entries past the shortest list are never read. */
  lemma {:induction false} TrailingReturnsIgnored(principal: real, rs: seq<real>, rs': seq<real>, cs: seq<real>, ws: seq<real>)
    requires |cs| == |ws| && |cs| <= |rs| && |cs| <= |rs'|
    requires rs[..|cs|] == rs'[..|cs|]
    ensures InvestmentValue(principal, rs, cs, ws) == InvestmentValue(principal, rs', cs, ws)
  {
    var n := |cs|;
    assert Periods(rs, cs, ws) == n && Periods(rs', cs, ws) == n;
    TruncatedLists(principal, rs, cs, ws);
    TruncatedLists(principal, rs', cs, ws);
    assert cs[..n] == cs && ws[..n] == ws;
  }

  /** Appending a year to all three lists applies one more step to the value:
      the years are folded from first to last. */
  lemma AppendYear(principal: real, rs: seq<real>, cs: seq<real>, ws: seq<real>, r: real, c: real, w: real)
    requires |rs| == |cs| == |ws|
    ensures InvestmentValue(principal, rs + [r], cs + [c], ws + [w]) == Step(InvestmentValue(principal, rs, cs, ws), r, c, w)
  {
    var n := |rs|;
    assert (rs + [r])[..n] == rs && (cs + [c])[..n] == cs && (ws + [w])[..n] == ws;
  }

  /** A one-year run takes the withdrawal out before the growth: the result
      differs from growing first and withdrawing after whenever both the
      return and the withdrawal are non-zero. */
  lemma WithdrawalBeforeGrowth(principal: real, r: real, c: real, w: real)
    requires r != 0.0 && w != 0.0
    ensures InvestmentValue(principal, [r], [c], [w]) == (principal - w) * Factor(r) + c
    ensures InvestmentValue(principal, [r], [c], [w]) != principal * Factor(r) - w + c
  {
    assert InvestmentValue(principal, [r], [c], [w]) == Step(InvestmentValue(principal, [], [], []), r, c, w);
    assert (principal - w) * Factor(r) + c - (principal * Factor(r) - w + c) == -w * r / 100.0;
  }

  /** With zero returns over the years run, the value is the principal plus
      the contributions less the withdrawals of those years. */
  lemma {:induction false} ZeroReturns(principal: real, rs: seq<real>, cs: seq<real>, ws: seq<real>)
    requires forall i :: 0 <= i < Periods(rs, cs, ws) ==> rs[i] == 0.0
    ensures var n := Periods(rs, cs, ws);
            InvestmentValue(principal, rs, cs, ws) == principal + Sum(cs[..n]) - Sum(ws[..n])
    decreases Periods(rs, cs, ws)
  {
    var n := Periods(rs, cs, ws);
    if n > 0 {
      var rs0, cs0, ws0 := rs[..n - 1], cs[..n - 1], ws[..n - 1];
      assert Periods(rs0, cs0, ws0) == n - 1;
      ZeroReturns(principal, rs0, cs0, ws0);
      assert cs0[..n - 1] == cs0 && ws0[..n - 1] == ws0;
      assert cs[..n][..n - 1] == cs0 && ws[..n][..n - 1] == ws0;
      assert Factor(rs[n - 1]) == 1.0;
    }
  }

  /** Zero returns and zero cash flows leave the principal as it was. */
  lemma NothingHappens(principal: real, rs: seq<real>, cs: seq<real>, ws: seq<real>)
    requires forall i :: 0 <= i < |rs| ==> rs[i] == 0.0
    requires forall i :: 0 <= i < |cs| ==> cs[i] == 0.0
    requires forall i :: 0 <= i < |ws| ==> ws[i] == 0.0
    ensures InvestmentValue(principal, rs, cs, ws) == principal
  {
    var n := Periods(rs, cs, ws);
    ZeroReturns(principal, rs, cs, ws);
    SumOfZeros(cs[..n]);
    SumOfZeros(ws[..n]);
  }

  lemma {:induction false} SumOfZeros(s: seq<real>)
    requires forall i :: 0 <= i < |s| ==> s[i] == 0.0
    ensures Sum(s) == 0.0
  {
    if |s| > 0 {
      SumOfZeros(s[..|s| - 1]);
    }
  }

  /** Without cash flows, the value is the principal times the growth of the
      years run (lists of unequal length are first cut by `TruncatedLists`). */
  lemma {:induction false} NoCashFlows(principal: real, rs: seq<real>, cs: seq<real>, ws: seq<real>)
    requires |rs| == |cs| == |ws|
    requires forall i :: 0 <= i < |cs| ==> cs[i] == 0.0
    requires forall i :: 0 <= i < |ws| ==> ws[i] == 0.0
    ensures InvestmentValue(principal, rs, cs, ws) == principal * Growth(rs)
  {
    var n := |rs|;
    if n > 0 {
      var rs0, cs0, ws0 := rs[..n - 1], cs[..n - 1], ws[..n - 1];
      NoCashFlows(principal, rs0, cs0, ws0);
      assert cs[n - 1] == 0.0 && ws[n - 1] == 0.0;
      GrowOnly(principal, Growth(rs0), rs[n - 1]);
    }
  }

  /** A year without cash flows only multiplies by the year's factor. */
  lemma GrowOnly(principal: real, g: real, r: real)
    ensures Step(principal * g, r, 0.0, 0.0) == principal * (g * Factor(r))
  {
    assert (principal * g - 0.0) * Factor(r) == (principal * g) * Factor(r);
  }

  /** When no year loses everything, more principal never ends with less. */
  lemma {:induction false} MonotoneInPrincipal(p: real, q: real, rs: seq<real>, cs: seq<real>, ws: seq<real>)
    requires p <= q
    requires forall i :: 0 <= i < |rs| ==> rs[i] >= -100.0
    ensures InvestmentValue(p, rs, cs, ws) <= InvestmentValue(q, rs, cs, ws)
    decreases Periods(rs, cs, ws)
  {
    var n := Periods(rs, cs, ws);
    if n > 0 {
      var rs0, cs0, ws0 := rs[..n - 1], cs[..n - 1], ws[..n - 1];
      assert Periods(rs0, cs0, ws0) == n - 1;
      MonotoneInPrincipal(p, q, rs0, cs0, ws0);
      var vp, vq := InvestmentValue(p, rs0, cs0, ws0), InvestmentValue(q, rs0, cs0, ws0);
      var f := Factor(rs[n - 1]);
      assert f >= 0.0;
      assert (vq - ws[n - 1]) * f - (vp - ws[n - 1]) * f == (vq - vp) * f;
    }
  }

  // ---------------------------------------------------------------------
  // Annualized return
  // ---------------------------------------------------------------------

  /** No return in the list is a loss of 100% or more, so every growth factor
      is positive and has a logarithm. */
  predicate AboveTotalLoss(rs: seq<real>)
  {
    forall i :: 0 <= i < |rs| ==> rs[i] > -100.0
  }

  /** The sum of the logarithms of the growth factors, left to right. */
  function SumLogFactors(rs: seq<real>, ln: real -> real): real
  {
    if |rs| == 0 then 0.0 else SumLogFactors(rs[..|rs| - 1], ln) + ln(Factor(rs[|rs| - 1]))
  }

  /** The geometric-mean annualized return, in percent, with the natural
      logarithm and exponential supplied by the caller. It fails on a return
      of -100% or less (no logarithm) before it fails on an empty list
      (division by zero). */
  function AnnualizedReturn(rs: seq<real>, ln: real -> real, exp: real -> real): (r: Result<real>)
    ensures r.Ok? <==> |rs| > 0 && AboveTotalLoss(rs)
    ensures r == Err(InvalidReturn) <==> !AboveTotalLoss(rs)
    ensures r == Err(InsufficientData) <==> |rs| == 0
  {
    if !AboveTotalLoss(rs) then Err(InvalidReturn)
    else if |rs| == 0 then Err(InsufficientData)
    else Ok((exp(SumLogFactors(rs, ln) / |rs| as real) - 1.0) * 100.0)
  }

  /** The annualization as the program runs it: sum the logarithms year by
      year, divide by the number of years, exponentiate. */
  method CalculateAnnualizedReturn(rs: seq<real>, ln: real -> real, exp: real -> real)
    returns (r: Result<real>)
    ensures r == AnnualizedReturn(rs, ln, exp)
  {
    var total := 0.0;
    var n := |rs|;
    for i := 0 to n
      invariant total == SumLogFactors(rs[..i], ln)
      invariant AboveTotalLoss(rs[..i])
    {
      if rs[i] <= -100.0 {
        assert !AboveTotalLoss(rs);
        return Err(InvalidReturn);
      }
      assert rs[..i + 1][..i] == rs[..i];
      total := total + ln(Factor(rs[i]));
    }
    assert rs[..n] == rs;
    if n == 0 {
      return Err(InsufficientData);
    }
    total := total / n as real;
    r := Ok((exp(total) - 1.0) * 100.0);
  }

  /** The supplied exponential undoes the supplied logarithm on positive reals. */
  ghost predicate ExpUndoesLn(ln: real -> real, exp: real -> real)
  {
    forall x {:trigger exp(ln(x))} :: 0.0 < x ==> exp(ln(x)) == x
  }

  /** Product of two reals, named so that it can stand in a trigger and so
      that a proof sees the product only where it asks for it. */
  function Times(x: real, y: real): real
  {
    x * y
  }

  /** The supplied functions behave as the natural logarithm and exponential:
      each undoes the other, the exponential is positive, and the logarithm
      turns products of positive reals into sums. */
  ghost predicate IsLogExpPair(ln: real -> real, exp: real -> real)
  {
    && ExpUndoesLn(ln, exp)
    && (forall y {:trigger ln(exp(y))} :: ln(exp(y)) == y)
    && (forall y {:trigger exp(y)} :: 0.0 < exp(y))
    && (forall x, y {:trigger ln(Times(x, y))} :: 0.0 < x && 0.0 < y ==> ln(Times(x, y)) == ln(x) + ln(y))
  }

  lemma {:induction false} SumLogFactorsOfRepeat(r: real, n: nat, ln: real -> real)
    ensures SumLogFactors(Repeat(r, n), ln) == n as real * ln(Factor(r))
  {
    if n > 0 {
      assert Repeat(r, n)[..n - 1] == Repeat(r, n - 1);
      SumLogFactorsOfRepeat(r, n - 1, ln);
    }
  }

  /** Annualizing `n` equal returns gives that return back. */
  lemma ConstantReturns(r: real, n: nat, ln: real -> real, exp: real -> real)
    requires n >= 1 && r > -100.0
    requires ExpUndoesLn(ln, exp)
    ensures AnnualizedReturn(Repeat(r, n), ln, exp) == Ok(r)
  {
    var rs := Repeat(r, n);
    assert AboveTotalLoss(rs);
    SumLogFactorsOfRepeat(r, n, ln);
    var l := ln(Factor(r));
    assert SumLogFactors(rs, ln) / |rs| as real == l by {
      assert SumLogFactors(rs, ln) == n as real * l;
      assert (n as real * l) / n as real == l;
    }
    assert Factor(r) > 0.0;
    assert exp(l) == Factor(r);
    assert (Factor(r) - 1.0) * 100.0 == r;
  }

  lemma {:induction false} LogOfGrowth(rs: seq<real>, ln: real -> real, exp: real -> real)
    requires IsLogExpPair(ln, exp) && AboveTotalLoss(rs)
    ensures SumLogFactors(rs, ln) == ln(Growth(rs))
  {
    if |rs| == 0 {
      assert ln(Times(1.0, 1.0)) == ln(1.0) + ln(1.0);
    } else {
      var rs0 := rs[..|rs| - 1];
      assert AboveTotalLoss(rs0);
      LogOfGrowth(rs0, ln, exp);
      var f := Factor(rs[|rs| - 1]);
      assert Growth(rs0) > 0.0 && f > 0.0;
      assert Growth(rs) == Times(Growth(rs0), f);
      assert ln(Times(Growth(rs0), f)) == ln(Growth(rs0)) + ln(f);
    }
  }

  lemma {:induction false} LogOfPow(x: real, n: nat, ln: real -> real, exp: real -> real)
    requires IsLogExpPair(ln, exp) && x > 0.0
    ensures Pow(x, n) > 0.0
    ensures ln(Pow(x, n)) == n as real * ln(x)
  {
    if n == 0 {
      assert ln(Times(1.0, 1.0)) == ln(1.0) + ln(1.0);
    } else {
      LogOfPow(x, n - 1, ln, exp);
      assert ln(Times(Pow(x, n - 1), x)) == ln(Pow(x, n - 1)) + ln(x);
    }
  }

  /** The annualized return is the constant rate that, compounded over as
      many years as the list has, reproduces the list's total growth. */
  lemma AnnualizedReturnCompounds(rs: seq<real>, ln: real -> real, exp: real -> real)
    requires IsLogExpPair(ln, exp)
    requires |rs| > 0 && AboveTotalLoss(rs)
    ensures AnnualizedReturn(rs, ln, exp).Ok?
    ensures Pow(Factor(AnnualizedReturn(rs, ln, exp).value), |rs|) == Growth(rs)
  {
    var n := |rs|;
    var g := Growth(rs);
    LogOfGrowth(rs, ln, exp);
    var m := ln(g) / n as real;
    var a := exp(m);
    assert AnnualizedReturn(rs, ln, exp).value == (a - 1.0) * 100.0;
    assert Factor((a - 1.0) * 100.0) == a;
    PowOfRoot(g, n, ln, exp);
  }

  /** exp(ln(g) / n) is an `n`-th root of a positive `g`. */
  lemma PowOfRoot(g: real, n: nat, ln: real -> real, exp: real -> real)
    requires IsLogExpPair(ln, exp)
    requires g > 0.0 && n > 0
    ensures Pow(exp(ln(g) / n as real), n) == g
  {
    var m := ln(g) / n as real;
    var a := exp(m);
    assert a > 0.0 && ln(a) == m;
    LogOfPow(a, n, ln, exp);
    var p := Pow(a, n);
    assert ln(p) == ln(g) by {
      assert ln(p) == n as real * m;
      assert n as real * (ln(g) / n as real) == ln(g);
    }
    assert exp(ln(p)) == p && exp(ln(g)) == g;
  }
}
