/**
 * The relative due-date offset shown in the DUE column: a signed millisecond
 * difference expressed as a floored count of years, months, weeks or days,
 * choosing the coarsest unit whose length the magnitude strictly exceeds.
 */
module DueOffset {
  import opened Timestamp

  const MsWeek := 7 * MsDay
  /** 30.42 days; 86400000 * 3042 is a multiple of 100, so this is exact. */
  const MsMonth := MsDay * 3042 / 100
  /** 365.25 days, likewise exact. */
  const MsYear := MsDay * 36525 / 100

  datatype Unit = Years | Months | Weeks | Days

  /** A count of units, displayed as the count followed by y, m, w or d. */
  datatype Offset = Offset(count: int, unit: Unit)

  function UnitMs(u: Unit): (ms: nat)
    ensures ms >= MsDay
  {
    match u
    case Years => MsYear
    case Months => MsMonth
    case Weeks => MsWeek
    case Days => MsDay
  }

  function Abs(x: int): nat {
    if x < 0 then -x else x
  }

  /** Euclidean division by a positive length is the floor of the quotient. */
  lemma FloorBounds(x: int, m: int)
    requires m > 0
    ensures (x / m) * m <= x < (x / m + 1) * m
  {
    assert x == (x / m) * m + x % m;
  }

  /**
   * Years, then months, then weeks are tried with a strict comparison on the
   * magnitude; days are the fall-back. The count is the floor of the quotient.
   */
  function SelectUnit(difference: int): (o: Offset)
    ensures o.unit == Years <==> Abs(difference) > MsYear
    ensures o.unit == Months <==> MsMonth < Abs(difference) <= MsYear
    ensures o.unit == Weeks <==> MsWeek < Abs(difference) <= MsMonth
    ensures o.unit == Days <==> Abs(difference) <= MsWeek
    ensures o.count * UnitMs(o.unit) <= difference < (o.count + 1) * UnitMs(o.unit)
  {
    var unit :=
      if Abs(difference) > MsYear then Years
      else if Abs(difference) > MsMonth then Months
      else if Abs(difference) > MsWeek then Weeks
      else Days;
    FloorBounds(difference, UnitMs(unit));
    Offset(difference / UnitMs(unit), unit)
  }

  /** The count has the sign of the difference, and never rounds to zero above a day. */
  lemma OffsetSign(difference: int)
    ensures SelectUnit(difference).count < 0 <==> difference < 0
    ensures SelectUnit(difference).unit != Days ==> SelectUnit(difference).count != 0
  {
  }

  /**
   * A difference of a whole number of days, at most a week either way, is
   * reported as that many days; in particular zero is `0d`.
   */
  lemma WholeDays(n: int)
    requires -7 <= n <= 7
    ensures SelectUnit(n * MsDay) == Offset(n, Days)
  {
  }

  /** Anything from midnight up to the end of the day reads `0d`. */
  lemma SameDay(difference: int)
    requires 0 <= difference < MsDay
    ensures SelectUnit(difference) == Offset(0, Days)
  {
  }

  /** Just over a week is one week; just over a year is one year. */
  lemma CoarseBoundaries()
    ensures SelectUnit(MsWeek + 1) == Offset(1, Weeks)
    ensures SelectUnit(-(MsWeek + 1)) == Offset(-2, Weeks)
    ensures SelectUnit(MsYear + 1) == Offset(1, Years)
    ensures SelectUnit(MsYear) == Offset(12, Months)
  {
    assert MsWeek == 604800000 && MsMonth == 2628288000 && MsYear == 31557600000;
    assert (MsWeek + 1) / MsWeek == 1 && (-(MsWeek + 1)) / MsWeek == -2;
    assert (MsYear + 1) / MsYear == 1 && MsYear / MsMonth == 12;
  }
}
