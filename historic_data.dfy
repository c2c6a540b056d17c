/** The historic table: one percentage return per year (7.5 means 7.5%),
    and the queries the rolling-window computation makes of it. */
module HistoricData {
  import opened Failures

  /** The loaded table, year to percentage return. */
  type Series = map<int, real>

  /** The return recorded for one year; an absent year is an error. */
  function ReturnFor(h: Series, year: int): (r: Result<real>)
    ensures r.Ok? <==> year in h
    ensures r.Ok? ==> r.value == h[year]
    ensures r.Err? ==> r.error == MissingYear(year)
  {
    if year in h then Ok(h[year]) else Err(MissingYear(year))
  }

  /** How many years `start..end` spans (inclusive); none when `end < start`. */
  function YearCount(start: int, end: int): nat
  {
    if start <= end then end - start + 1 else 0
  }

  /** The returns of the years `start..end` in year order, or the error for the
      first year of that range the table lacks. */
  function YearRange(h: Series, start: int, end: int): (r: Result<seq<real>>)
    decreases end - start
    ensures r.Ok? <==> forall y :: start <= y <= end ==> y in h
    ensures r.Ok? ==> |r.value| == YearCount(start, end)
    ensures r.Ok? ==> forall i :: 0 <= i < |r.value| ==> start + i in h && r.value[i] == h[start + i]
    ensures r.Err? ==> r.error.MissingYear? && start <= r.error.year <= end && r.error.year !in h
    ensures r.Err? ==> forall y :: start <= y < r.error.year ==> y in h
  {
    if end < start then Ok([])
    else
      match ReturnFor(h, start)
      case Err(e) => Err(e)
      case Ok(x) =>
        match YearRange(h, start + 1, end)
        case Err(e) => Err(e)
        case Ok(rest) => Ok([x] + rest)
  }

  /** The range query as the program runs it: one lookup per year, appended in order. */
  method GetReturnsFor(h: Series, start: int, end: int) returns (r: Result<seq<real>>)
    ensures r == YearRange(h, start, end)
  {
    var collected: seq<real> := [];
    var year := start;
    while year <= end
      invariant start <= year && (year <= end + 1 || year == start)
      invariant |collected| == year - start
      invariant forall y :: start <= y < year ==> y in h
      invariant forall i :: 0 <= i < |collected| ==> collected[i] == h[start + i]
      decreases end - year
    {
      var x := ReturnFor(h, year);
      if x.Err? {
        // the first absent year of the range is this one
        ghost var expected := YearRange(h, start, end);
        assert expected.Err? && expected.error.year <= year;
        return Err(x.error);
      }
      collected := collected + [x.value];
      year := year + 1;
    }
    ghost var expected := YearRange(h, start, end);
    assert expected.Ok? && |expected.value| == |collected|;
    assert expected.value == collected;
    r := Ok(collected);
  }

  /** Some year of a non-empty set of years. */
  lemma AnyYear(years: set<int>) returns (x: int)
    requires years != {}
    ensures x in years
  {
    if forall y :: y !in years {
      assert false;
    }
    x :| x in years;
  }

  /** Every non-empty finite set of years has a least one. */
  lemma {:induction false} LeastYearExists(years: set<int>)
    requires years != {}
    ensures exists m :: m in years && forall y :: y in years ==> m <= y
    decreases |years|
  {
    var x := AnyYear(years);
    var rest := years - {x};
    if rest == {} {
      forall y | y in years
        ensures x <= y
      {
        assert y !in rest;
      }
    } else {
      LeastYearExists(rest);
      var m :| m in rest && forall y :: y in rest ==> m <= y;
      forall y | y in years
        ensures x <= y || m <= y
      {
        if y != x {
          assert y in rest;
        }
      }
      if x <= m {
        assert x in years && forall y :: y in years ==> x <= y;
      } else {
        assert m in years && forall y :: y in years ==> m <= y;
      }
    }
  }

  /** Every non-empty finite set of years has a greatest one. */
  lemma {:induction false} GreatestYearExists(years: set<int>)
    requires years != {}
    ensures exists m :: m in years && forall y :: y in years ==> y <= m
    decreases |years|
  {
    var x := AnyYear(years);
    var rest := years - {x};
    if rest == {} {
      forall y | y in years
        ensures y <= x
      {
        assert y !in rest;
      }
    } else {
      GreatestYearExists(rest);
      var m :| m in rest && forall y :: y in rest ==> y <= m;
      forall y | y in years
        ensures y <= x || y <= m
      {
        if y != x {
          assert y in rest;
        }
      }
      if m <= x {
        assert x in years && forall y :: y in years ==> y <= x;
      } else {
        assert m in years && forall y :: y in years ==> y <= m;
      }
    }
  }

  /** The first year of the table; an empty table is an error. */
  function StartYear(h: Series): (r: Result<int>)
    ensures r.Ok? <==> |h| > 0
    ensures r.Ok? ==> r.value in h && forall y :: y in h ==> r.value <= y
    ensures r.Err? ==> r.error == EmptySeries
  {
    if |h| == 0 then Err(EmptySeries)
    else
      LeastYearExists(h.Keys);
      var m :| m in h && forall y :: y in h ==> m <= y;
      Ok(m)
  }

  /** The last year of the table; an empty table is an error. */
  function EndYear(h: Series): (r: Result<int>)
    ensures r.Ok? <==> |h| > 0
    ensures r.Ok? ==> r.value in h && forall y :: y in h ==> y <= r.value
    ensures r.Err? ==> r.error == EmptySeries
  {
    if |h| == 0 then Err(EmptySeries)
    else
      GreatestYearExists(h.Keys);
      var m :| m in h && forall y :: y in h ==> y <= m;
      Ok(m)
  }

  /** Querying the whole span of a table without gaps yields one return per year. */
  lemma FullSpan(h: Series)
    requires |h| > 0
    requires forall y :: StartYear(h).value <= y <= EndYear(h).value ==> y in h
    ensures YearRange(h, StartYear(h).value, EndYear(h).value).Ok?
    ensures |YearRange(h, StartYear(h).value, EndYear(h).value).value|
            == EndYear(h).value - StartYear(h).value + 1
  {
  }
}
