/**
 Conversion between UTC and local time in a zone with yearly rules. Instants and local times are
 whole seconds. The division of time into years is a parameter, of which only its order matters here.
 */
module TimeZone {
  import opened Common
  import opened Wrappers

  /** The local times, by year, at which daylight saving starts (in standard time) and ends (in
      daylight time). */
  datatype Rules = Rules(start: int -> int, end: int -> int)

  /** The second at which each year begins, and the year of each second. */
  datatype Years = Years(begin: int -> int, at: int -> int)

  datatype Zone = Zone(stdAbbrev: string, dstAbbrev: string, offset: int, save: int, rules: Option<Rules>, years: Years)

  datatype SysInfo = SysInfo(begin: int, end: int, offset: int, save: int, abbrev: string)

  datatype Kind = Unique | Nonexistent | Ambiguous

  datatype LocalInfo = LocalInfo(result: Kind, first: SysInfo, second: SysInfo)

  datatype Choose = Earliest | Latest

  const NoInfo := SysInfo(0, 0, 0, 0, "")

  // ---------------------------------------------------------------- the code

  function CeilMinutes(s: int): int {
    -(-s / 60)
  }

  function GetStart(z: Zone, y: int): int
    requires z.rules.Some?
  {
    z.rules.value.start(y) - z.offset
  }

  function GetEnd(z: Zone, y: int): int
    requires z.rules.Some?
  {
    z.rules.value.end(y) - (z.offset + z.save)
  }

  function Std(z: Zone, begin: int, end: int): SysInfo {
    SysInfo(begin, end, z.offset, 0, z.stdAbbrev)
  }

  function Dst(z: Zone, begin: int, end: int): SysInfo {
    SysInfo(begin, end, z.offset + z.save, CeilMinutes(z.save), z.dstAbbrev)
  }

  /** The range of the date type's years. */
  function FirstDay(z: Zone): int {
    z.years.begin(-32767)
  }

  function LastDay(z: Zone): int {
    z.years.begin(32768) - SecondsPerDay
  }

  function ConstantOffset(z: Zone): SysInfo {
    if |z.stdAbbrev| > 0 then Std(z, FirstDay(z), LastDay(z)) else Dst(z, FirstDay(z), LastDay(z))
  }

  function GetInfo(z: Zone, st: int): SysInfo {
    if z.rules.None? then ConstantOffset(z) else GetInfoInYear(z, SearchYear(z, st), st)
  }

  /** The year of the instant, or a neighbour if the instant is past that one's transitions. */
  function SearchYear(z: Zone, st: int): int
    requires z.rules.Some?
  {
    var y := z.years.at(st);
    if st >= GetStart(z, y + 1) then y + 1 else if st < GetEnd(z, y - 1) then y - 1 else y
  }

  function GetInfoInYear(z: Zone, y: int, st: int): SysInfo
    requires z.rules.Some?
  {
    var start, end := GetStart(z, y), GetEnd(z, y);
    if start <= end then
      if start <= st < end then Dst(z, start, end)
      else if st < start then Std(z, GetEnd(z, y - 1), start)
      else Std(z, end, GetStart(z, y + 1))
    else
      if end <= st < start then Std(z, end, start)
      else if st < end then Dst(z, GetStart(z, y - 1), end)
      else Dst(z, start, GetEnd(z, y + 1))
  }

  function GetLocalInfo(z: Zone, tp: int): LocalInfo {
    if z.rules.None? then LocalInfo(Unique, ConstantOffset(z), NoInfo) else GetLocalInfoInYear(z, z.years.at(tp), tp)
  }

  function GetLocalInfoInYear(z: Zone, y: int, tp: int): LocalInfo
    requires z.rules.Some?
  {
    var start, end := GetStart(z, y), GetEnd(z, y);
    var utcs, utcd := tp - z.offset, tp - (z.offset + z.save);
    var northern := start <= end;
    if (utcs < start) != (utcd < start) then
      LocalInfo(if z.save > 0 then Nonexistent else Ambiguous,
                Std(z, if northern then GetEnd(z, y - 1) else end, start),
                Dst(z, start, if northern then end else GetEnd(z, y + 1)))
    else if (utcs < end) != (utcd < end) then
      LocalInfo(if z.save > 0 then Ambiguous else Nonexistent,
                Dst(z, if northern then start else GetStart(z, y - 1), end),
                Std(z, end, if northern then GetStart(z, y + 1) else start))
    else LocalInfo(Unique, GetInfo(z, utcs), NoInfo)
  }

  /** Without a choice, a local time that is not unique is an error. */
  function ToSys(z: Zone, tp: int): Result<int, LocalInfo> {
    Sole(GetLocalInfo(z, tp), tp)
  }

  function Sole(i: LocalInfo, tp: int): Result<int, LocalInfo> {
    if i.result != Unique then Failure(i) else Success(tp - i.first.offset)
  }

  function ToSysChoosing(z: Zone, tp: int, c: Choose): int {
    Chosen(GetLocalInfo(z, tp), tp, c)
  }

  function Chosen(i: LocalInfo, tp: int, c: Choose): int {
    if i.result == Nonexistent then i.first.end
    else if i.result == Ambiguous && c == Latest then tp - i.second.offset
    else tp - i.first.offset
  }

  function ToLocal(z: Zone, t: int): int {
    t + GetInfo(z, t).offset
  }

  // ---------------------------------------------------------------- years

  ghost predicate YearFollows(c: Years, y: int) {
    c.begin(y) < c.begin(y + 1)
  }

  ghost predicate Orderly(c: Years) {
    (forall y :: YearFollows(c, y)) && forall t :: c.begin(c.at(t)) <= t < c.begin(c.at(t) + 1)
  }

  lemma {:induction false} YearsGrow(c: Years, y: int, w: int)
    requires Orderly(c) && y <= w
    ensures c.begin(y) <= c.begin(w)
    decreases w - y
  {
    if y < w {
      YearsGrow(c, y, w - 1);
      assert YearFollows(c, w - 1);
    }
  }

  lemma AtIs(c: Years, t: int, y: int)
    requires Orderly(c) && c.begin(y) <= t < c.begin(y + 1)
    ensures c.at(t) == y
  {
    var w := c.at(t);
    if y < w {
      YearsGrow(c, y + 1, w);
    } else if w < y {
      YearsGrow(c, w + 1, y);
    }
  }

  // ---------------------------------------------------------------- the periods of a ruled zone

  /** The order of the two transitions within each year. */
  datatype Order = Northern | Southern

  ghost predicate YearAlternates(z: Zone, o: Order, y: int)
    requires z.rules.Some?
  {
    match o
    case Northern => GetStart(z, y) <= GetEnd(z, y) <= GetStart(z, y + 1)
    case Southern => GetEnd(z, y) < GetStart(z, y) <= GetEnd(z, y + 1)
  }

  ghost predicate Alternates(z: Zone, o: Order) {
    z.rules.Some? && Orderly(z.years) && forall y :: YearAlternates(z, o, y)
  }

  /** The `k`-th period: two for each year, the first one starting at the year's first transition. */
  function Period(z: Zone, o: Order, k: int): SysInfo
    requires z.rules.Some?
  {
    var y := k / 2;
    match o
    case Northern =>
      if k % 2 == 0 then Dst(z, GetStart(z, y), GetEnd(z, y)) else Std(z, GetEnd(z, y), GetStart(z, y + 1))
    case Southern =>
      if k % 2 == 0 then Std(z, GetEnd(z, y), GetStart(z, y)) else Dst(z, GetStart(z, y), GetEnd(z, y + 1))
  }

  predicate Brackets(i: SysInfo, t: int) {
    i.begin <= t < i.end
  }

  /** Periods follow each other without holes. */
  lemma PeriodsTile(z: Zone, o: Order, k: int)
    requires Alternates(z, o)
    ensures Period(z, o, k).begin <= Period(z, o, k).end == Period(z, o, k + 1).begin
  {
    assert YearAlternates(z, o, k / 2);
  }

  lemma {:induction false} PeriodsGrow(z: Zone, o: Order, j: int, k: int)
    requires Alternates(z, o) && j <= k
    ensures Period(z, o, j).begin <= Period(z, o, k).begin
    decreases k - j
  {
    if j < k {
      PeriodsGrow(z, o, j, k - 1);
      PeriodsTile(z, o, k - 1);
    }
  }

  /** An instant lies in one period only. */
  lemma PeriodUnique(z: Zone, o: Order, j: int, k: int, t: int)
    requires Alternates(z, o) && Brackets(Period(z, o, j), t) && Brackets(Period(z, o, k), t)
    ensures j == k
  {
    PeriodsTile(z, o, j);
    PeriodsTile(z, o, k);
    if j < k {
      PeriodsGrow(z, o, j + 1, k);
    } else if k < j {
      PeriodsGrow(z, o, k + 1, j);
    }
  }

  // ---------------------------------------------------------------- from UTC

  /** How far transitions may stray from their year before the search for a period misses. */
  ghost predicate YearInReach(z: Zone, o: Order, y: int)
    requires z.rules.Some?
  {
    match o
    case Northern => z.years.begin(y - 1) <= GetStart(z, y) && GetEnd(z, y) <= z.years.begin(y + 2)
    case Southern => z.years.begin(y) <= GetEnd(z, y) && GetStart(z, y) <= z.years.begin(y + 1)
  }

  /** The period that the code picks for an instant when it searches year `y`. */
  function Picked(z: Zone, o: Order, y: int, st: int): int
    requires z.rules.Some?
  {
    if st < Period(z, o, 2 * y).begin then 2 * y - 1
    else if st < Period(z, o, 2 * y + 1).begin then 2 * y
    else 2 * y + 1
  }

  lemma GetInfoIsPicked(z: Zone, o: Order, y: int, st: int)
    requires Alternates(z, o)
    ensures GetInfoInYear(z, y, st) == Period(z, o, Picked(z, o, y, st))
  {
    assert YearAlternates(z, o, y);
  }

  /** The search misses only if the instant lies outside the periods that touch year `y`. */
  lemma PickedBrackets(z: Zone, o: Order, y: int, st: int)
    requires Alternates(z, o)
    ensures Brackets(Period(z, o, Picked(z, o, y, st)), st)
        <==> Period(z, o, 2 * y - 1).begin <= st < Period(z, o, 2 * y + 1).end
  {
    PeriodsTile(z, o, 2 * y - 1);
    PeriodsTile(z, o, 2 * y);
    PeriodsTile(z, o, 2 * y + 1);
  }

  /** The searched year's neighbourhood contains the instant. */
  lemma NorthernFinds(z: Zone, st: int)
    requires Alternates(z, Northern) && forall y :: YearInReach(z, Northern, y)
    ensures var w := SearchYear(z, st); GetEnd(z, w - 1) <= st < GetStart(z, w + 1)
  {
    var y := z.years.at(st);
    if st >= GetStart(z, y + 1) {
      assert YearAlternates(z, Northern, y);
      assert YearInReach(z, Northern, y + 2);
    } else if st < GetEnd(z, y - 1) {
      assert YearAlternates(z, Northern, y - 1);
      assert YearInReach(z, Northern, y - 2);
    }
  }

  lemma SouthernFinds(z: Zone, st: int)
    requires Alternates(z, Southern) && forall y :: YearInReach(z, Southern, y)
    ensures var w := SearchYear(z, st); GetStart(z, w - 1) <= st < GetEnd(z, w + 1)
  {
    var y := z.years.at(st);
    assert YearInReach(z, Southern, y - 1) && YearInReach(z, Southern, y + 1);
    assert YearAlternates(z, Southern, y - 1) && YearAlternates(z, Southern, y + 1);
    assert SearchYear(z, st) == y;
  }

  lemma InReachBrackets(z: Zone, o: Order, st: int)
    requires Alternates(z, o) && forall y :: YearInReach(z, o, y)
    ensures Brackets(GetInfo(z, st), st)
  {
    var w := SearchYear(z, st);
    GetInfoIsPicked(z, o, w, st);
    PickedBrackets(z, o, w, st);
    match o {
      case Northern => NorthernFinds(z, st);
      case Southern => SouthernFinds(z, st);
    }
  }

  /** A transition out of reach leaves an instant, at an end of a year, in the wrong period. */
  lemma OutOfReachMisses(z: Zone, o: Order, y: int) returns (st: int)
    requires Alternates(z, o) && !YearInReach(z, o, y)
    ensures !Brackets(GetInfo(z, st), st)
  {
    match o {
      case Northern => st := NorthernMiss(z, y);
      case Southern => st := SouthernMiss(z, y);
    }
  }

  lemma NorthernMiss(z: Zone, y: int) returns (st: int)
    requires Alternates(z, Northern) && !YearInReach(z, Northern, y)
    ensures !Brackets(GetInfo(z, st), st)
  {
    if GetStart(z, y) < z.years.begin(y - 1) {
      st := z.years.begin(y - 1) - 1;
      assert YearFollows(z.years, y - 2);
      AtIs(z.years, st, y - 2);
      assert YearAlternates(z, Northern, y - 1);
      assert SearchYear(z, st) == y - 1;
    } else {
      st := z.years.begin(y + 2);
      assert YearFollows(z.years, y + 2);
      AtIs(z.years, st, y + 2);
      assert YearAlternates(z, Northern, y) && YearAlternates(z, Northern, y + 1) && YearAlternates(z, Northern, y + 2);
      assert SearchYear(z, st) == y + 1;
    }
    var v := SearchYear(z, st);
    GetInfoIsPicked(z, Northern, v, st);
    PickedBrackets(z, Northern, v, st);
  }

  /** An instant of standard time, which the code takes for daylight time. */
  lemma SouthernMiss(z: Zone, y: int) returns (st: int)
    requires Alternates(z, Southern) && !YearInReach(z, Southern, y)
    ensures !Brackets(GetInfo(z, st), st)
  {
    var begin, end := GetEnd(z, y), GetStart(z, y);
    assert YearAlternates(z, Southern, y - 1) && YearAlternates(z, Southern, y);
    if begin < z.years.begin(y) {
      st := if end < z.years.begin(y) then end - 1 else z.years.begin(y) - 1;
      EarlierYear(z.years, st, y);
    } else {
      st := if begin > z.years.begin(y + 1) then begin else z.years.begin(y + 1);
      LaterYear(z.years, st, y);
    }
    NotInYear(z, y, st);
  }

  lemma EarlierYear(c: Years, t: int, y: int)
    requires Orderly(c) && t < c.begin(y)
    ensures c.at(t) < y
  {
    if y <= c.at(t) {
      YearsGrow(c, y, c.at(t));
    }
  }

  lemma LaterYear(c: Years, t: int, y: int)
    requires Orderly(c) && t >= c.begin(y + 1)
    ensures c.at(t) > y
  {
    if c.at(t) <= y {
      YearsGrow(c, c.at(t) + 1, y + 1);
    }
  }

  /** An instant of the standard time within year `y` is missed when the instant lies in another year. */
  lemma NotInYear(z: Zone, y: int, st: int)
    requires Alternates(z, Southern) && z.years.at(st) != y
    requires GetEnd(z, y) <= st < GetStart(z, y)
    requires GetStart(z, y - 1) <= GetEnd(z, y) && GetStart(z, y) <= GetEnd(z, y + 1)
    ensures !Brackets(GetInfo(z, st), st)
  {
    var v := SearchYear(z, st);
    GetInfoIsPicked(z, Southern, v, st);
    if Brackets(GetInfo(z, st), st) {
      PeriodUnique(z, Southern, 2 * y, Picked(z, Southern, v, st), st);
    }
  }

  /** The period found always contains the instant exactly when no transition strays too far. */
  lemma GetInfoBracketsIff(z: Zone, o: Order)
    requires Alternates(z, o)
    ensures (forall st :: Brackets(GetInfo(z, st), st)) <==> (forall y :: YearInReach(z, o, y))
  {
    if y :| !YearInReach(z, o, y) {
      var st := OutOfReachMisses(z, o, y);
    } else {
      forall st ensures Brackets(GetInfo(z, st), st) {
        InReachBrackets(z, o, st);
      }
    }
  }

  /** The period found is the one that the rules put there. */
  lemma GetInfoIsPeriod(z: Zone, o: Order, k: int, st: int)
    requires Alternates(z, o) && (forall y :: YearInReach(z, o, y))
    requires Brackets(Period(z, o, k), st)
    ensures GetInfo(z, st) == Period(z, o, k)
  {
    InReachBrackets(z, o, st);
    var w := SearchYear(z, st);
    GetInfoIsPicked(z, o, w, st);
    PeriodUnique(z, o, k, Picked(z, o, w, st), st);
  }

  // ---------------------------------------------------------------- from local time

  ghost predicate InLocalYear(z: Zone, y: int, tp: int) {
    z.years.begin(y) <= tp <= z.years.begin(y + 1)
  }

  /** The clock stays within one year while it is changed, and no change falls within another. */
  ghost predicate YearSeparated(z: Zone, o: Order, y: int)
    requires z.rules.Some?
  {
    var start, end := z.rules.value.start(y), z.rules.value.end(y);
    && InLocalYear(z, y, start) && InLocalYear(z, y, start + z.save)
    && InLocalYear(z, y, end) && InLocalYear(z, y, end - z.save)
    && YearInReach(z, o, y)
    && match o
       case Northern => GetStart(z, y) + Abs(z.save) <= GetEnd(z, y)
       case Southern => GetEnd(z, y) + Abs(z.save) <= GetStart(z, y) && GetEnd(z, y) < GetStart(z, y)
  }

  ghost predicate Separated(z: Zone, o: Order) {
    z.rules.Some? && Orderly(z.years) && forall y :: YearSeparated(z, o, y)
  }

  /** It is enough that transitions stay away from the ends of their year, in UTC, by the sum of the
      offsets. */
  lemma WellInsideSeparates(z: Zone, o: Order, y: int)
    requires z.rules.Some? && Orderly(z.years)
    requires var margin := Abs(z.offset) + Abs(z.save);
             && z.years.begin(y) + margin <= GetStart(z, y) <= z.years.begin(y + 1) - margin
             && z.years.begin(y) + margin <= GetEnd(z, y) <= z.years.begin(y + 1) - margin
    requires match o
             case Northern => GetStart(z, y) + Abs(z.save) <= GetEnd(z, y)
             case Southern => GetEnd(z, y) + Abs(z.save) <= GetStart(z, y) && GetEnd(z, y) < GetStart(z, y)
    ensures YearSeparated(z, o, y)
  {
    YearsGrow(z.years, y - 1, y);
    YearsGrow(z.years, y + 1, y + 2);
  }

  lemma SeparatedAlternates(z: Zone, o: Order)
    requires Separated(z, o)
    ensures Alternates(z, o) && forall y :: YearInReach(z, o, y)
  {
    forall y ensures YearAlternates(z, o, y) {
      assert YearSeparated(z, o, y) && YearSeparated(z, o, y + 1);
    }
    forall y ensures YearInReach(z, o, y) {
      assert YearSeparated(z, o, y);
    }
  }

  /** Whichever offset applies, a local time of year `y` lies in one of the periods that touch `y`. */
  lemma NeighbourPeriods(z: Zone, o: Order, y: int, tp: int)
    requires Separated(z, o) && z.years.begin(y) <= tp < z.years.begin(y + 1)
    ensures Period(z, o, 2 * y - 1).begin <= tp - z.offset < Period(z, o, 2 * y + 1).end
    ensures Period(z, o, 2 * y - 1).begin <= tp - (z.offset + z.save) < Period(z, o, 2 * y + 1).end
  {
    assert YearSeparated(z, o, y - 1) && YearSeparated(z, o, y + 1);
  }

  /** A period is longer than the change of the clock. */
  lemma PeriodsAreLong(z: Zone, o: Order, k: int)
    requires Separated(z, o)
    ensures Period(z, o, k).begin + Abs(z.save) <= Period(z, o, k).end == Period(z, o, k + 1).begin
  {
    assert YearSeparated(z, o, k / 2);
    if k % 2 == 1 {
      assert YearSeparated(z, o, k / 2 + 1);
    }
  }

  /** What applies at each instant. */
  ghost function InfoOf(z: Zone): int -> SysInfo {
    t => GetInfo(z, t)
  }

  /** The periods of the rules apply. */
  ghost predicate Follows(z: Zone, o: Order, info: int -> SysInfo) {
    && z.rules.Some?
    && (forall k, t :: Brackets(Period(z, o, k), t) ==> info(t) == Period(z, o, k))
    && forall t :: info(t).offset == z.offset || info(t).offset == z.offset + z.save
  }

  lemma InfoOfFollows(z: Zone, o: Order)
    requires Separated(z, o)
    ensures Follows(z, o, InfoOf(z))
  {
    SeparatedAlternates(z, o);
    forall k, t | Brackets(Period(z, o, k), t) ensures InfoOf(z)(t) == Period(z, o, k) {
      GetInfoIsPeriod(z, o, k, t);
    }
  }

  /** Instant `t` has the local time `tp`. */
  ghost predicate MapsTo(info: int -> SysInfo, t: int, tp: int) {
    t + info(t).offset == tp
  }

  lemma ToLocalMaps(z: Zone, t: int)
    ensures MapsTo(InfoOf(z), t, ToLocal(z, t))
  {
  }

  /** What the answer to a local time says about UTC. */
  ghost predicate Tells(info: int -> SysInfo, tp: int, i: LocalInfo) {
    var t1, t2 := tp - i.first.offset, tp - i.second.offset;
    match i.result
    case Unique =>
      && i.first == info(t1)
      && forall t :: MapsTo(info, t, tp) <==> t == t1
    case Ambiguous =>
      && t1 < t2
      && i.first == info(t1) && i.second == info(t2)
      && Brackets(i.first, t1) && Brackets(i.second, t2) && i.first.end == i.second.begin
      && forall t :: MapsTo(info, t, tp) <==> t == t1 || t == t2
    case Nonexistent =>
      var change := i.first.end;
      && i.first == info(change - 1) && i.second == info(change) && i.second.begin == change
      && change + i.first.offset <= tp < change + i.second.offset
      && forall t :: !MapsTo(info, t, tp)
  }

  /** A local time that is before a change of the clock by one offset and not by the other. */
  lemma ChangeTells(z: Zone, o: Order, k: int, tp: int, info: int -> SysInfo)
    requires Separated(z, o) && Follows(z, o, info)
    requires Crosses(z, tp, Period(z, o, k).end)
    ensures Tells(info, tp, AtChange(z, o, k))
  {
    var a, b := Period(z, o, k), Period(z, o, k + 1);
    PeriodsAreLong(z, o, k);
    PeriodsAreLong(z, o, k + 1);
    TwoPeriodsTell(a, b, tp, info);
  }

  lemma TwoPeriodsTell(a: SysInfo, b: SysInfo, tp: int, info: int -> SysInfo)
    requires a.end == b.begin
    requires a.begin + Abs(b.offset - a.offset) <= a.end && b.begin + Abs(b.offset - a.offset) <= b.end
    requires (tp - a.offset < a.end) != (tp - b.offset < a.end)
    requires forall t :: Brackets(a, t) ==> info(t) == a
    requires forall t :: Brackets(b, t) ==> info(t) == b
    requires forall t :: info(t).offset == a.offset || info(t).offset == b.offset
    ensures Tells(info, tp, LocalInfo(if b.offset > a.offset then Nonexistent else Ambiguous, a, b))
  {
    if b.offset > a.offset {
      assert Brackets(b, tp - a.offset) && Brackets(a, tp - b.offset);
      assert Brackets(a, a.end - 1) && Brackets(b, a.end);
    } else {
      assert Brackets(a, tp - a.offset) && Brackets(b, tp - b.offset);
    }
  }

  /** A local time on the same side of every change of the clock by either offset. */
  lemma NoChangeTells(z: Zone, o: Order, k: int, tp: int, info: int -> SysInfo)
    requires Separated(z, o) && Follows(z, o, info)
    requires Brackets(Period(z, o, k), tp - z.offset) && Brackets(Period(z, o, k), tp - (z.offset + z.save))
    ensures Tells(info, tp, LocalInfo(Unique, info(tp - z.offset), NoInfo))
  {
  }

  predicate Crosses(z: Zone, tp: int, change: int) {
    (tp - z.offset < change) != (tp - (z.offset + z.save) < change)
  }

  /** The code's answer, in terms of the three periods that touch the year. */
  lemma LocalInfoIs(z: Zone, o: Order, y: int, tp: int)
    requires Separated(z, o)
    ensures GetLocalInfoInYear(z, y, tp)
         == if Crosses(z, tp, Period(z, o, 2 * y).begin) then AtChange(z, o, 2 * y - 1)
            else if Crosses(z, tp, Period(z, o, 2 * y + 1).begin) then AtChange(z, o, 2 * y)
            else LocalInfo(Unique, GetInfo(z, tp - z.offset), NoInfo)
  {
    match o {
      case Northern => NorthernLocalInfo(z, y, tp);
      case Southern => SouthernLocalInfo(z, y, tp);
    }
  }

  lemma NorthernLocalInfo(z: Zone, y: int, tp: int)
    requires Separated(z, Northern)
    ensures GetLocalInfoInYear(z, y, tp)
         == if Crosses(z, tp, Period(z, Northern, 2 * y).begin) then AtChange(z, Northern, 2 * y - 1)
            else if Crosses(z, tp, Period(z, Northern, 2 * y + 1).begin) then AtChange(z, Northern, 2 * y)
            else LocalInfo(Unique, GetInfo(z, tp - z.offset), NoInfo)
  {
    assert YearSeparated(z, Northern, y);
  }

  lemma SouthernLocalInfo(z: Zone, y: int, tp: int)
    requires Separated(z, Southern)
    ensures GetLocalInfoInYear(z, y, tp)
         == if Crosses(z, tp, Period(z, Southern, 2 * y).begin) then AtChange(z, Southern, 2 * y - 1)
            else if Crosses(z, tp, Period(z, Southern, 2 * y + 1).begin) then AtChange(z, Southern, 2 * y)
            else LocalInfo(Unique, GetInfo(z, tp - z.offset), NoInfo)
  {
    assert YearSeparated(z, Southern, y);
  }

  function AtChange(z: Zone, o: Order, k: int): LocalInfo
    requires z.rules.Some?
  {
    var a, b := Period(z, o, k), Period(z, o, k + 1);
    LocalInfo(if b.offset > a.offset then Nonexistent else Ambiguous, a, b)
  }

  /** The answer for a local time is right: it is unique, ambiguous or nonexistent when one, two or no
      instants have it, and the periods reported are those of these instants. */
  lemma LocalInfoTells(z: Zone, o: Order, tp: int)
    requires Separated(z, o)
    ensures Tells(InfoOf(z), tp, GetLocalInfo(z, tp))
  {
    InfoOfFollows(z, o);
    LocalInfoInYearTells(z, o, z.years.at(tp), tp);
  }

  lemma LocalInfoInYearTells(z: Zone, o: Order, y: int, tp: int)
    requires Separated(z, o) && Follows(z, o, InfoOf(z)) && z.years.begin(y) <= tp < z.years.begin(y + 1)
    ensures Tells(InfoOf(z), tp, GetLocalInfoInYear(z, y, tp))
  {
    LocalInfoIs(z, o, y, tp);
    AnyAnswerTells(z, o, y, tp, InfoOf(z), GetLocalInfoInYear(z, y, tp));
  }

  lemma AnyAnswerTells(z: Zone, o: Order, y: int, tp: int, info: int -> SysInfo, i: LocalInfo)
    requires Separated(z, o) && Follows(z, o, info) && z.years.begin(y) <= tp < z.years.begin(y + 1)
    requires i == if Crosses(z, tp, Period(z, o, 2 * y).begin) then AtChange(z, o, 2 * y - 1)
                  else if Crosses(z, tp, Period(z, o, 2 * y + 1).begin) then AtChange(z, o, 2 * y)
                  else LocalInfo(Unique, info(tp - z.offset), NoInfo)
    ensures Tells(info, tp, i)
  {
    PeriodsAreLong(z, o, 2 * y - 1);
    PeriodsAreLong(z, o, 2 * y);
    if Crosses(z, tp, Period(z, o, 2 * y).begin) {
      ChangeTells(z, o, 2 * y - 1, tp, info);
    } else if Crosses(z, tp, Period(z, o, 2 * y + 1).begin) {
      ChangeTells(z, o, 2 * y, tp, info);
    } else {
      NoChangeInYearTells(z, o, y, tp, info);
    }
  }

  lemma NoChangeInYearTells(z: Zone, o: Order, y: int, tp: int, info: int -> SysInfo)
    requires Separated(z, o) && Follows(z, o, info) && z.years.begin(y) <= tp < z.years.begin(y + 1)
    requires !Crosses(z, tp, Period(z, o, 2 * y).begin) && !Crosses(z, tp, Period(z, o, 2 * y + 1).begin)
    ensures Tells(info, tp, LocalInfo(Unique, info(tp - z.offset), NoInfo))
  {
    NeighbourPeriods(z, o, y, tp);
    SamePeriod(z, o, y, tp);
    NoChangeTells(z, o, Picked(z, o, y, tp - z.offset), tp, info);
  }

  lemma SamePeriod(z: Zone, o: Order, y: int, tp: int)
    requires z.rules.Some?
    requires !Crosses(z, tp, Period(z, o, 2 * y).begin) && !Crosses(z, tp, Period(z, o, 2 * y + 1).begin)
    requires Period(z, o, 2 * y - 1).begin <= tp - z.offset < Period(z, o, 2 * y + 1).end
    requires Period(z, o, 2 * y - 1).begin <= tp - (z.offset + z.save) < Period(z, o, 2 * y + 1).end
    ensures var k := Picked(z, o, y, tp - z.offset);
            Brackets(Period(z, o, k), tp - z.offset) && Brackets(Period(z, o, k), tp - (z.offset + z.save))
  {
  }

  /** The instant chosen for a local time: one that has this local time, the earliest or latest as
      asked, if there is any; otherwise the instant at which the clock jumps over it. */
  ghost predicate RightChoice(info: int -> SysInfo, tp: int, c: Choose, t: int) {
    if exists u :: MapsTo(info, u, tp) then
      && MapsTo(info, t, tp)
      && forall u :: MapsTo(info, u, tp) ==> if c == Earliest then t <= u else u <= t
    else
      info(t).begin == t && t + info(t - 1).offset <= tp < t + info(t).offset
  }

  lemma ChosenIsRight(info: int -> SysInfo, tp: int, i: LocalInfo, c: Choose)
    requires Tells(info, tp, i)
    ensures RightChoice(info, tp, c, Chosen(i, tp, c))
  {
    var t1, t2 := tp - i.first.offset, tp - i.second.offset;
    match i.result {
      case Unique => assert MapsTo(info, t1, tp);
      case Ambiguous => assert MapsTo(info, t1, tp) && MapsTo(info, t2, tp);
      case Nonexistent =>
    }
  }

  /** Choosing an instant for a local time; converting it back gives the local time where that is
      possible at all. */
  lemma ToSysChoosingIsRight(z: Zone, o: Order, tp: int, c: Choose)
    requires Separated(z, o)
    ensures RightChoice(InfoOf(z), tp, c, ToSysChoosing(z, tp, c))
  {
    LocalInfoTells(z, o, tp);
    ChosenIsRight(InfoOf(z), tp, GetLocalInfo(z, tp), c);
  }

  /** A local time survives the conversion to UTC and back exactly when some instant has it: when the
      clocks do not skip it. */
  lemma LocalRoundTripIff(z: Zone, o: Order, tp: int, c: Choose)
    requires Separated(z, o)
    ensures ToLocal(z, ToSysChoosing(z, tp, c)) == tp <==> exists u :: MapsTo(InfoOf(z), u, tp)
    ensures GetLocalInfo(z, tp).result == Nonexistent <==> !exists u :: MapsTo(InfoOf(z), u, tp)
  {
    LocalInfoTells(z, o, tp);
    ToLocalMaps(z, ToSysChoosing(z, tp, c));
    RoundTripOfAnswer(InfoOf(z), tp, GetLocalInfo(z, tp), c);
  }

  lemma RoundTripOfAnswer(info: int -> SysInfo, tp: int, i: LocalInfo, c: Choose)
    requires Tells(info, tp, i)
    ensures MapsTo(info, Chosen(i, tp, c), tp) <==> exists u :: MapsTo(info, u, tp)
    ensures i.result == Nonexistent <==> !exists u :: MapsTo(info, u, tp)
  {
    match i.result {
      case Unique => assert MapsTo(info, tp - i.first.offset, tp);
      case Ambiguous => assert MapsTo(info, tp - i.first.offset, tp);
      case Nonexistent =>
    }
  }

  /** Every instant is the earliest or the latest one with its local time. */
  lemma InstantRecovered(z: Zone, o: Order, t: int)
    requires Separated(z, o)
    ensures t == ToSysChoosing(z, ToLocal(z, t), Earliest) || t == ToSysChoosing(z, ToLocal(z, t), Latest)
  {
    LocalInfoTells(z, o, ToLocal(z, t));
    ToLocalMaps(z, t);
    RecoveredFromAnswer(InfoOf(z), ToLocal(z, t), GetLocalInfo(z, ToLocal(z, t)), t);
  }

  lemma RecoveredFromAnswer(info: int -> SysInfo, tp: int, i: LocalInfo, t: int)
    requires Tells(info, tp, i) && MapsTo(info, t, tp)
    ensures t == Chosen(i, tp, Earliest) || t == Chosen(i, tp, Latest)
  {
  }

  /** `t` is the only instant with the local time `tp`. */
  ghost predicate OnlyOne(info: int -> SysInfo, tp: int, t: int) {
    forall u :: MapsTo(info, u, tp) <==> u == t
  }

  /** Without a choice, the conversion succeeds exactly for the local times that occur once. */
  lemma ToSysIsRight(z: Zone, o: Order, tp: int, t: int)
    requires Separated(z, o)
    ensures ToSys(z, tp) == Success(t) <==> OnlyOne(InfoOf(z), tp, t)
  {
    LocalInfoTells(z, o, tp);
    OnlyOneIff(InfoOf(z), tp, GetLocalInfo(z, tp), t);
  }

  lemma OnlyOneIff(info: int -> SysInfo, tp: int, i: LocalInfo, t: int)
    requires Tells(info, tp, i)
    ensures Sole(i, tp) == Success(t) <==> OnlyOne(info, tp, t)
  {
    var t1, t2 := tp - i.first.offset, tp - i.second.offset;
    match i.result {
      case Unique => assert MapsTo(info, t1, tp);
      case Ambiguous => assert MapsTo(info, t1, tp) && MapsTo(info, t2, tp);
      case Nonexistent => assert !MapsTo(info, t, tp);
    }
  }

  /** A zone without rules has one offset: every local time is unique, and the conversions are inverse. */
  lemma ConstantZone(z: Zone, tp: int, c: Choose)
    requires z.rules.None?
    ensures GetLocalInfo(z, tp).result == Unique
    ensures ToLocal(z, ToSysChoosing(z, tp, c)) == tp && ToSys(z, tp) == Success(ToSysChoosing(z, tp, c))
    ensures Brackets(GetInfo(z, tp), tp) <==> FirstDay(z) <= tp < LastDay(z)
  {
  }
}
