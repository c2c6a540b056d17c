/** The driver of the tool: it builds the yearly contribution and withdrawal
    schedules from the arguments, computes the optional benchmark, and runs
    every rolling window of the historic table through the two calculations,
    producing one record per window. */
module ScenarioRunner {
  import opened Failures
  import opened HistoricData
  import opened InterestCalculator

  /** The result of the benchmark scenario. */
  datatype BenchmarkData = BenchmarkData(annualizedReturns: real, endValue: real)

  /** The result of one window `[start, end]` of the historic table. */
  datatype AnnualizedReturnData = AnnualizedReturnData(start: int, end: int, annualizedReturn: real, endValue: real)

  /** The parsed command-line arguments the computation reads, with the stop
      years already defaulted (see `StopOrDuration`). */
  datatype Args = Args(
    duration: int,
    principal: real,
    contrib: real, contribStart: int, contribStop: int,
    withdraw: real, withdrawStart: int, withdrawStop: int,
    benchmark: Option<real>)

  /** The stop year of a schedule: the given one, or the duration when it is
      absent or zero (zero is false in the program's `or`). */
  function StopOrDuration(stop: Option<int>, duration: int): (s: int)
    ensures stop.Some? && stop.value != 0 ==> s == stop.value
    ensures stop == None || stop == Some(0) ==> s == duration
  {
    match stop
    case Some(y) => if y != 0 then y else duration
    case None => duration
  }

  // ---------------------------------------------------------------------
  // Cash-flow schedules
  // ---------------------------------------------------------------------

  /** The schedule of `amount` paid in the years `first..last` of
      years `1..duration`, and nothing in the other years. */
  function Schedule(amount: real, first: int, last: int, duration: int): (s: seq<real>)
    decreases duration
    ensures |s| == if duration > 0 then duration else 0
    ensures forall i :: 0 <= i < |s| ==> s[i] == if first <= i + 1 <= last then amount else 0.0
  {
    if duration <= 0 then []
    else Schedule(amount, first, last, duration - 1) + [if first <= duration <= last then amount else 0.0]
  }

  /** The schedule as the program builds it, appending one entry per year. */
  method CalculateSchedule(amount: real, first: int, last: int, duration: int) returns (s: seq<real>)
    ensures s == Schedule(amount, first, last, duration)
  {
    s := [];
    var year := 1;
    while year <= duration
      invariant 1 <= year <= if duration > 0 then duration + 1 else 1
      invariant s == Schedule(amount, first, last, year - 1)
    {
      var current := if first <= year <= last then amount else 0.0;
      s := s + [current];
      year := year + 1;
    }
  }

  /** The yearly contributions: `contrib` in the years `contribStart..contribStop`. */
  method CalculateContributions(args: Args) returns (s: seq<real>)
    ensures s == Schedule(args.contrib, args.contribStart, args.contribStop, args.duration)
  {
    s := CalculateSchedule(args.contrib, args.contribStart, args.contribStop, args.duration);
  }

  /** The yearly withdrawals: `withdraw` in the years `withdrawStart..withdrawStop`. */
  method CalculateWithdrawals(args: Args) returns (s: seq<real>)
    ensures s == Schedule(args.withdraw, args.withdrawStart, args.withdrawStop, args.duration)
  {
    s := CalculateSchedule(args.withdraw, args.withdrawStart, args.withdrawStop, args.duration);
  }

  /** With the stop year left out (or zero) and the start year at its default
      of 1 or earlier, the schedule pays `amount` in every year of the
      duration: the flat per-year schedule. */
  lemma {:induction false} DefaultStopPaysEveryYear(amount: real, start: int, stop: Option<int>, duration: int)
    requires start <= 1
    requires stop == None || stop == Some(0)
    ensures Schedule(amount, start, StopOrDuration(stop, duration), duration) == Repeat(amount, duration)
  {
    var s := Schedule(amount, start, StopOrDuration(stop, duration), duration);
    var flat := Repeat(amount, duration);
    assert |s| == |flat|;
    forall i | 0 <= i < |s|
      ensures s[i] == flat[i]
    {
      assert start <= i + 1 <= duration;
    }
  }

  /** How many of the years `1..duration` lie in `first..last`. */
  function ActiveYears(first: int, last: int, duration: int): nat
  {
    var lo := if first > 1 then first else 1;
    var hi := if last < duration then last else duration;
    if lo <= hi then hi - lo + 1 else 0
  }

  lemma ActiveYearsStep(first: int, last: int, duration: int)
    requires duration > 0
    ensures ActiveYears(first, last, duration)
            == ActiveYears(first, last, duration - 1) + if first <= duration <= last then 1 else 0
  {
  }

  /** One more year of a schedule adds `amount` to its total when the year
      is active and nothing otherwise. */
  lemma TimesStep(amount: real, total: real, k: real, active: bool)
    requires total == Times(amount, k)
    ensures total + (if active then amount else 0.0) == Times(amount, k + if active then 1.0 else 0.0)
  {
  }

  /** A schedule pays `amount` once for every active year and nothing else. */
  lemma ScheduleTotal(amount: real, first: int, last: int, duration: int)
    ensures Sum(Schedule(amount, first, last, duration)) == amount * ActiveYears(first, last, duration) as real
  {
    var total, k := Sum(Schedule(amount, first, last, duration)), ActiveYears(first, last, duration) as real;
    ScheduleTotalTimes(amount, first, last, duration);
    assert total == Times(amount, k);
  }

  /** `ScheduleTotal` with the product named by `Times` (plain multiplication),
      so that each step of the induction sees it only where it asks for it. */
  lemma {:induction false} ScheduleTotalTimes(amount: real, first: int, last: int, duration: int)
    ensures Sum(Schedule(amount, first, last, duration)) == Times(amount, ActiveYears(first, last, duration) as real)
    decreases duration
  {
    if duration > 0 {
      var s0 := Schedule(amount, first, last, duration - 1);
      var active := first <= duration <= last;
      var x := if active then amount else 0.0;
      ScheduleTotalTimes(amount, first, last, duration - 1);
      assert Schedule(amount, first, last, duration) == s0 + [x];
      SumAppend(s0, x);
      ActiveYearsStep(first, last, duration);
      TimesStep(amount, Sum(s0), ActiveYears(first, last, duration - 1) as real, active);
    }
  }

  // ---------------------------------------------------------------------
  // Benchmark
  // ---------------------------------------------------------------------

  /** The benchmark scenario: when a benchmark rate is given, both
      calculations over `duration` copies of it with the same schedules. */
  function CalculateBenchmark(args: Args, contributions: seq<real>, withdrawals: seq<real>,
                              ln: real -> real, exp: real -> real): (b: Result<Option<BenchmarkData>>)
    ensures b == Ok(None) <==> args.benchmark.None?
    ensures args.benchmark.Some? ==>
              (b.Err? <==> AnnualizedReturn(Repeat(args.benchmark.value, args.duration), ln, exp).Err?)
    ensures b.Err? ==> AnnualizedReturn(Repeat(args.benchmark.value, args.duration), ln, exp) == Err(b.error)
    ensures b.Ok? && b.value.Some? ==>
              b.value.value.annualizedReturns
              == AnnualizedReturn(Repeat(args.benchmark.value, args.duration), ln, exp).value
    ensures b.Ok? && b.value.Some? ==>
              b.value.value.endValue
              == InvestmentValue(args.principal, Repeat(args.benchmark.value, args.duration), contributions, withdrawals)
  {
    match args.benchmark
    case None => Ok(None)
    case Some(rate) =>
      var rs := Repeat(rate, args.duration);
      match AnnualizedReturn(rs, ln, exp)
      case Err(e) => Err(e)
      case Ok(a) => Ok(Some(BenchmarkData(a, InvestmentValue(args.principal, rs, contributions, withdrawals))))
  }

  /** The benchmark's annualized return is the benchmark rate itself whenever
      there is at least one year and the rate is above a total loss. */
  lemma BenchmarkMatchesRate(args: Args, contributions: seq<real>, withdrawals: seq<real>,
                             ln: real -> real, exp: real -> real)
    requires ExpUndoesLn(ln, exp)
    requires args.benchmark.Some? && args.benchmark.value > -100.0 && args.duration >= 1
    ensures CalculateBenchmark(args, contributions, withdrawals, ln, exp).Ok?
    ensures CalculateBenchmark(args, contributions, withdrawals, ln, exp).value.Some?
    ensures CalculateBenchmark(args, contributions, withdrawals, ln, exp).value.value.annualizedReturns
            == args.benchmark.value
  {
    ConstantReturns(args.benchmark.value, args.duration, ln, exp);
  }

  lemma {:induction false} GrowthOfRepeat(rate: real, n: nat)
    ensures Growth(Repeat(rate, n)) == Pow(Factor(rate), n)
  {
    if n > 0 {
      assert Repeat(rate, n)[..n - 1] == Repeat(rate, n - 1);
      GrowthOfRepeat(rate, n - 1);
    }
  }

  /** Running a principal through `n` copies of one rate with no cash flows
      compounds it `n` times. */
  lemma FlatRateWithoutCashFlows(principal: real, rate: real, n: nat, cs: seq<real>, ws: seq<real>)
    requires |cs| == n && |ws| == n
    requires forall i :: 0 <= i < |cs| ==> cs[i] == 0.0
    requires forall i :: 0 <= i < |ws| ==> ws[i] == 0.0
    ensures InvestmentValue(principal, Repeat(rate, n), cs, ws) == principal * Pow(Factor(rate), n)
  {
    var rs := Repeat(rate, n);
    NoCashFlows(principal, rs, cs, ws);
    GrowthOfRepeat(rate, n);
  }

  /** Without cash flows the benchmark compounds the principal once per
      year of the duration: every one of its `duration` returns is used. */
  lemma BenchmarkWithoutCashFlows(args: Args, contributions: seq<real>, withdrawals: seq<real>,
                                  ln: real -> real, exp: real -> real)
    requires args.benchmark.Some? && args.duration >= 0
    requires |contributions| == args.duration && |withdrawals| == args.duration
    requires forall i :: 0 <= i < |contributions| ==> contributions[i] == 0.0
    requires forall i :: 0 <= i < |withdrawals| ==> withdrawals[i] == 0.0
    requires CalculateBenchmark(args, contributions, withdrawals, ln, exp).Ok?
    ensures CalculateBenchmark(args, contributions, withdrawals, ln, exp).value.value.endValue
            == args.principal * Pow(Factor(args.benchmark.value), args.duration)
  {
    FlatRateWithoutCashFlows(args.principal, args.benchmark.value, args.duration, contributions, withdrawals);
  }

  /** A zero amount gives a schedule of zeros, whatever its years. */
  lemma ZeroSchedule(first: int, last: int, duration: int)
    ensures forall i :: 0 <= i < |Schedule(0.0, first, last, duration)| ==> Schedule(0.0, first, last, duration)[i] == 0.0
  {
  }

  // ---------------------------------------------------------------------
  // Rolling windows
  // ---------------------------------------------------------------------

  /** The number of windows `[y, y + duration]` with `first <= y` and
      `y + duration <= last`. */
  function WindowCount(first: int, last: int, duration: int): nat
  {
    if first + duration <= last then last - duration - first + 1 else 0
  }

  /** The record of the window starting in `year`: its `duration + 1` returns
      annualized, and the principal run through them with the schedules. */
  function WindowResult(h: Series, year: int, args: Args, contributions: seq<real>, withdrawals: seq<real>,
                        ln: real -> real, exp: real -> real): (r: Result<AnnualizedReturnData>)
    ensures r.Ok? ==> r.value.start == year && r.value.end == year + args.duration && args.duration >= 0
    ensures r.Err? && r.error.MissingYear? ==> year <= r.error.year <= year + args.duration && r.error.year !in h
  {
    match YearRange(h, year, year + args.duration)
    case Err(e) => Err(e)
    case Ok(rs) =>
      match AnnualizedReturn(rs, ln, exp)
      case Err(e) => Err(e)
      case Ok(a) => Ok(AnnualizedReturnData(year, year + args.duration, a,
                                            InvestmentValue(args.principal, rs, contributions, withdrawals)))
  }

  /** One pass of the window loop: fetch the window's returns, annualize
      them, and run the principal through them with the schedules. */
  method CalculateWindow(h: Series, year: int, args: Args, contributions: seq<real>, withdrawals: seq<real>,
                         ln: real -> real, exp: real -> real)
    returns (r: Result<AnnualizedReturnData>)
    ensures r == WindowResult(h, year, args, contributions, withdrawals, ln, exp)
  {
    var annualReturns := GetReturnsFor(h, year, year + args.duration);
    if annualReturns.Err? {
      return Err(annualReturns.error);
    }
    var annualized := CalculateAnnualizedReturn(annualReturns.value, ln, exp);
    if annualized.Err? {
      return Err(annualized.error);
    }
    var endValue := CalculateInvestmentValue(args.principal, annualReturns.value, contributions, withdrawals);
    r := Ok(AnnualizedReturnData(year, year + args.duration, annualized.value, endValue));
  }

  /** `f(from), f(from + 1), ..., f(to)` gathered in order while each succeeds;
      the first failure ends the sweep and is its result. */
  function Sweep<T>(f: int -> Result<T>, from: int, to: int): Result<seq<T>>
    decreases to - from
  {
    if to < from then Ok([])
    else
      match f(from)
      case Err(e) => Err(e)
      case Ok(x) =>
        match Sweep(f, from + 1, to)
        case Err(e) => Err(e)
        case Ok(rest) => Ok([x] + rest)
  }

  /** `done` followed by what a sweep yields, or the sweep's failure. */
  function After<T>(done: seq<T>, r: Result<seq<T>>): Result<seq<T>>
  {
    match r
    case Err(e) => Err(e)
    case Ok(rest) => Ok(done + rest)
  }

  /** One step of a sweep that has gathered `done` so far: a successful step
      is added to what is gathered, and a failing one is the sweep's result. */
  lemma SweepStep<T>(f: int -> Result<T>, first: int, from: int, to: int, done: seq<T>)
    requires from <= to
    requires Sweep(f, first, to) == After(done, Sweep(f, from, to))
    ensures f(from).Ok? ==> Sweep(f, first, to) == After(done + [f(from).value], Sweep(f, from + 1, to))
    ensures f(from).Err? ==> Sweep(f, first, to) == Err(f(from).error)
  {
    if f(from).Ok? && Sweep(f, from + 1, to).Ok? {
      var rest := Sweep(f, from + 1, to).value;
      assert done + ([f(from).value] + rest) == (done + [f(from).value]) + rest;
    }
  }

  /** A sweep succeeds exactly when every step does; it then holds one
      result per step in order, and otherwise fails with the error of the
      first step that fails. */
  lemma {:induction false} SweepShape<T>(f: int -> Result<T>, from: int, to: int)
    decreases to - from
    ensures Sweep(f, from, to).Ok? <==> forall y :: from <= y <= to ==> f(y).Ok?
    ensures Sweep(f, from, to).Ok? ==>
              && |Sweep(f, from, to).value| == YearCount(from, to)
              && forall i :: 0 <= i < |Sweep(f, from, to).value| ==> f(from + i) == Ok(Sweep(f, from, to).value[i])
    ensures Sweep(f, from, to).Err? ==>
              exists y :: from <= y <= to && f(y) == Err(Sweep(f, from, to).error)
                          && forall y' :: from <= y' < y ==> f(y').Ok?
  {
    if from <= to {
      SweepShape(f, from + 1, to);
      var r := Sweep(f, from, to);
      if f(from).Err? {
        assert from <= from <= to && f(from) == Err(r.error);
      } else {
        var rest := Sweep(f, from + 1, to);
        if rest.Ok? {
          assert r.value == [f(from).value] + rest.value;
          forall i | 0 <= i < |r.value|
            ensures f(from + i) == Ok(r.value[i])
          {
            if i > 0 {
              assert r.value[i] == rest.value[i - 1];
              assert f((from + 1) + (i - 1)) == Ok(rest.value[i - 1]);
            }
          }
        } else {
          var y :| from + 1 <= y <= to && f(y) == Err(rest.error)
                   && forall y' :: from + 1 <= y' < y ==> f(y').Ok?;
          assert from <= y <= to && f(y) == Err(r.error);
        }
      }
    }
  }

  /** What the window loop computes for a table: the records of the windows
      starting at the table's first year and ending no later than its last,
      or the first failure. */
  function AllWindows(h: Series, args: Args, contributions: seq<real>, withdrawals: seq<real>,
                      ln: real -> real, exp: real -> real): Result<seq<AnnualizedReturnData>>
  {
    if |h| == 0 then Err(EmptySeries)
    else Sweep(WindowsOf(h, args, contributions, withdrawals, ln, exp),
               StartYear(h).value, EndYear(h).value - args.duration)
  }

  /** `WindowResult` as a function of the start year alone. */
  function WindowsOf(h: Series, args: Args, contributions: seq<real>, withdrawals: seq<real>,
                     ln: real -> real, exp: real -> real): int -> Result<AnnualizedReturnData>
  {
    y => WindowResult(h, y, args, contributions, withdrawals, ln, exp)
  }

  /** Every window of the table in turn, as the program runs them. */
  method CalculateAnnualizedReturns(h: Series, args: Args, contributions: seq<real>, withdrawals: seq<real>,
                                    ln: real -> real, exp: real -> real)
    returns (r: Result<seq<AnnualizedReturnData>>)
    ensures r == AllWindows(h, args, contributions, withdrawals, ln, exp)
  {
    var s := StartYear(h);
    if s.Err? {
      return Err(s.error);
    }
    r := CalculateWindowsFrom(h, s.value, EndYear(h).value, args, contributions, withdrawals, ln, exp,
                              WindowsOf(h, args, contributions, withdrawals, ln, exp));
  }

  /** The window loop proper, from `first` while the window still ends by
      `last`. The ghost `window` stands for `WindowResult`, read at one start
      year at a time. */
  method CalculateWindowsFrom(h: Series, first: int, last: int, args: Args,
                              contributions: seq<real>, withdrawals: seq<real>,
                              ln: real -> real, exp: real -> real,
                              ghost window: int -> Result<AnnualizedReturnData>)
    returns (r: Result<seq<AnnualizedReturnData>>)
    requires forall y {:trigger WindowResult(h, y, args, contributions, withdrawals, ln, exp)} ::
               window(y) == WindowResult(h, y, args, contributions, withdrawals, ln, exp)
    ensures r == Sweep(window, first, last - args.duration)
  {
    var d := args.duration;
    var startYear := first;
    var results: seq<AnnualizedReturnData> := [];
    ghost var all := Sweep(window, first, last - d);
    if all.Ok? {
      assert results + all.value == all.value;
    }
    while startYear + d <= last
      invariant all == After(results, Sweep(window, startYear, last - d))
      decreases last - d - startYear
    {
      var w := CalculateWindow(h, startYear, args, contributions, withdrawals, ln, exp);
      assert window(startYear) == w;
      SweepStep(window, first, startYear, last - d, results);
      if w.Err? {
        return Err(w.error);
      }
      results := results + [w.value];
      startYear := startYear + 1;
    }
    assert results + [] == results;
    r := Ok(results);
  }

  /** What the window loop promises, part one: it succeeds on a non-empty
      table exactly when every window from the first year on that fits
      before the last year succeeds, and fails on an empty table with
      `EmptySeries`. */
  lemma AllWindowsSucceed(h: Series, args: Args, contributions: seq<real>, withdrawals: seq<real>,
                          ln: real -> real, exp: real -> real)
    ensures |h| == 0 ==> AllWindows(h, args, contributions, withdrawals, ln, exp) == Err(EmptySeries)
    ensures |h| > 0 ==>
      (AllWindows(h, args, contributions, withdrawals, ln, exp).Ok? <==>
       forall y :: StartYear(h).value <= y <= EndYear(h).value - args.duration ==>
         WindowResult(h, y, args, contributions, withdrawals, ln, exp).Ok?)
  {
    if |h| > 0 {
      var f := WindowsOf(h, args, contributions, withdrawals, ln, exp);
      forall y ensures f(y) == WindowResult(h, y, args, contributions, withdrawals, ln, exp) { }
      SweepShape(f, StartYear(h).value, EndYear(h).value - args.duration);
    }
  }

  /** `records` holds one record per window that starts in `first` or later
      and ends by `last`, in order of start year; each is that window's
      `WindowResult` and spans `duration + 1` years inside `first..last`. */
  predicate WindowsInOrder(h: Series, records: seq<AnnualizedReturnData>, first: int, last: int, args: Args,
                           contributions: seq<real>, withdrawals: seq<real>,
                           ln: real -> real, exp: real -> real)
  {
    && |records| == WindowCount(first, last, args.duration)
    && forall i :: 0 <= i < |records| ==>
         && WindowResult(h, first + i, args, contributions, withdrawals, ln, exp) == Ok(records[i])
         && records[i].start == first + i
         && records[i].end == first + i + args.duration <= last
  }

  /** Part two: a successful run holds one record per window, in order of
      start year, each spanning `duration + 1` years inside the table. */
  lemma AllWindowsInOrder(h: Series, args: Args, contributions: seq<real>, withdrawals: seq<real>,
                          ln: real -> real, exp: real -> real)
    requires AllWindows(h, args, contributions, withdrawals, ln, exp).Ok?
    ensures |h| > 0
    ensures WindowsInOrder(h, AllWindows(h, args, contributions, withdrawals, ln, exp).value,
                           StartYear(h).value, EndYear(h).value, args, contributions, withdrawals, ln, exp)
  {
    SweptWindowsInOrder(h, StartYear(h).value, EndYear(h).value, args, contributions, withdrawals, ln, exp,
                        WindowsOf(h, args, contributions, withdrawals, ln, exp));
  }

  /** Part two over any stand-in `window` for `WindowResult`. */
  lemma SweptWindowsInOrder(h: Series, first: int, last: int, args: Args,
                            contributions: seq<real>, withdrawals: seq<real>,
                            ln: real -> real, exp: real -> real,
                            window: int -> Result<AnnualizedReturnData>)
    requires forall y {:trigger WindowResult(h, y, args, contributions, withdrawals, ln, exp)} ::
               window(y) == WindowResult(h, y, args, contributions, withdrawals, ln, exp)
    requires Sweep(window, first, last - args.duration).Ok?
    ensures WindowsInOrder(h, Sweep(window, first, last - args.duration).value, first, last, args,
                           contributions, withdrawals, ln, exp)
  {
    SweepShape(window, first, last - args.duration);
    var r := Sweep(window, first, last - args.duration).value;
    forall i | 0 <= i < |r|
      ensures && WindowResult(h, first + i, args, contributions, withdrawals, ln, exp) == Ok(r[i])
              && r[i].start == first + i
              && r[i].end == first + i + args.duration <= last
    {
      assert window(first + i) == Ok(r[i]);
      assert first + i <= last - args.duration;
    }
  }

  /** Part three: a failed run on a non-empty table reports the failure of
      the first window that fails. */
  lemma AllWindowsFirstFailure(h: Series, args: Args, contributions: seq<real>, withdrawals: seq<real>,
                               ln: real -> real, exp: real -> real)
    requires |h| > 0
    requires AllWindows(h, args, contributions, withdrawals, ln, exp).Err?
    ensures exists y :: StartYear(h).value <= y <= EndYear(h).value - args.duration
              && WindowResult(h, y, args, contributions, withdrawals, ln, exp)
                 == Err(AllWindows(h, args, contributions, withdrawals, ln, exp).error)
              && forall y' :: StartYear(h).value <= y' < y ==>
                   WindowResult(h, y', args, contributions, withdrawals, ln, exp).Ok?
  {
    var f := WindowsOf(h, args, contributions, withdrawals, ln, exp);
    forall y ensures f(y) == WindowResult(h, y, args, contributions, withdrawals, ln, exp) { }
    SweepShape(f, StartYear(h).value, EndYear(h).value - args.duration);
  }

  /** A window's end value never depends on its last year: with schedules of
      `duration` entries only the first `duration` of its `duration + 1`
      returns are run, so two tables that differ only in that year give the
      same end value. */
  lemma WindowIgnoresLastReturn(h: Series, h': Series, year: int, args: Args,
                                contributions: seq<real>, withdrawals: seq<real>,
                                ln: real -> real, exp: real -> real)
    requires args.duration >= 0
    requires |contributions| == args.duration && |withdrawals| == args.duration
    requires forall y :: year <= y < year + args.duration ==> y in h && y in h' && h[y] == h'[y]
    requires WindowResult(h, year, args, contributions, withdrawals, ln, exp).Ok?
    requires WindowResult(h', year, args, contributions, withdrawals, ln, exp).Ok?
    ensures WindowResult(h, year, args, contributions, withdrawals, ln, exp).value.endValue
            == WindowResult(h', year, args, contributions, withdrawals, ln, exp).value.endValue
  {
    var d := args.duration;
    var rs := YearRange(h, year, year + d).value;
    var rs' := YearRange(h', year, year + d).value;
    assert rs[..d] == rs'[..d];
    TrailingReturnsIgnored(args.principal, rs, rs', contributions, withdrawals);
  }
}
