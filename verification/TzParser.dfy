/**
 The reader and writer of POSIX time zone texts. Each reader advances an index; it succeeds exactly
 when the text at the index belongs to its part of the language. An error is the position it is
 reported at.
 */
module TzParser {
  import opened Common
  import opened Wrappers
  import opened TzRuleForm
  import opened Text
  import opened TzText

  /** A value, and the index of the first character after its text. */
  datatype Read<+T> = Read(value: T, next: nat)

  type Reading<+T> = Result<Read<T>, int>

  // ---------------------------------------------------------------- numbers and times

  ghost predicate NoNumberAt(s: string, i: nat, limit: nat) {
    forall j: nat, n :: !NumberAt(s, i, j, limit, n)
  }

  method ReadUnsigned(s: string, i: nat, limit: nat) returns (r: Reading<int>)
    requires i <= |s| && limit >= 1
    ensures r.Success? ==> NumberAt(s, i, r.value.next, limit, r.value.value)
    ensures r.Failure? ==> NoNumberAt(s, i, limit)
  {
    if i == |s| || !IsDigit(s[i]) {
      return Failure(i);
    }
    var u, count, j := Digit(s[i]), 1, i + 1;
    while count < limit && j != |s| && IsDigit(s[j])
      invariant i < j <= |s| && count == j - i <= limit
      invariant DigitsFrom(s, i, j) && u == ValueOf(s, i, j)
    {
      u := u * 10 + Digit(s[j]);
      j, count := j + 1, count + 1;
    }
    r := Success(Read(u, j));
  }

  ghost predicate NoClockAt(s: string, i: nat, unit: int, most: int) {
    forall j: nat, t :: !ClockAt(s, i, j, unit, most, t)
  }

  /** A number that is out of range, or that is followed by something unfit. */
  lemma NoClock(s: string, i: nat, k: nat, unit: int, most: int, n: int)
    requires NumberAt(s, i, k, 2, n) && unit in {1, 60, 3600}
    requires n > most || (Next(s, k, ':') && unit > 1 && NoClockAt(s, k + 1, unit / 60, 59))
    ensures NoClockAt(s, i, unit, most)
  {
    forall j: nat, t ensures !ClockAt(s, i, j, unit, most, t) {
      if ClockAt(s, i, j, unit, most, t) {
        FirstPartIs(s, i, k, unit, most, n, j, t);
      }
    }
  }

  lemma FirstPartIs(s: string, i: nat, k: nat, unit: int, most: int, n: int, j: nat, t: int)
    requires NumberAt(s, i, k, 2, n) && ClockAt(s, i, j, unit, most, t) && unit in {1, 60, 3600}
    ensures n <= most && ClockRestAt(s, k, j, unit, t - n * unit)
  {
    var l: nat, m, x :| NumberAt(s, i, l, 2, m) && m <= most && ClockRestAt(s, l, j, unit, x) && t == m * unit + x;
    NumberUnique(s, i, 2, k, n, l, m);
  }

  /** One number of a time of day, which must be in range. */
  method ReadPart(s: string, i: nat, unit: int, most: int) returns (r: Reading<int>)
    requires i <= |s| && unit in {1, 60, 3600}
    ensures r.Success? ==> NumberAt(s, i, r.value.next, 2, r.value.value) && r.value.value <= most
    ensures r.Failure? ==> NoClockAt(s, i, unit, most)
  {
    r := ReadUnsigned(s, i, 2);
    if r.Success? && r.value.value > most {
      NoClock(s, i, r.value.next, unit, most, r.value.value);
      r := Failure(r.value.next - 1);
    }
  }

  method ReadUnsignedTime(s: string, i: nat) returns (r: Reading<int>)
    requires i <= |s|
    ensures r.Success? ==> i < r.value.next <= |s| && TimeAt(s, i, r.value.next, r.value.value)
    ensures r.Failure? ==> NoClockAt(s, i, Hour, 24)
  {
    var h := ReadPart(s, i, Hour, 24);
    if h.Failure? {
      return h;
    }
    var t, j := h.value.value * Hour, h.value.next;
    if Next(s, j, ':') {
      var m := ReadMinutes(s, j + 1);
      if m.Failure? {
        NoClock(s, i, j, Hour, 24, h.value.value);
        return m;
      }
      t, j := t + m.value.value, m.value.next;
    }
    ClockJoins(s, i, h.value.next, j, Hour, 24, h.value.value, t - h.value.value * Hour);
    r := Success(Read(t, j));
  }

  /** Minutes after the first colon, and seconds after a second one. */
  method ReadMinutes(s: string, i: nat) returns (r: Reading<int>)
    requires i <= |s|
    ensures r.Success? ==> i < r.value.next <= |s| && ClockAt(s, i, r.value.next, 60, 59, r.value.value)
    ensures r.Failure? ==> NoClockAt(s, i, 60, 59)
  {
    var m := ReadPart(s, i, 60, 59);
    if m.Failure? {
      return m;
    }
    var t, j := m.value.value * Minute, m.value.next;
    if Next(s, j, ':') {
      var sec := ReadPart(s, j + 1, 1, 59);
      if sec.Failure? {
        NoClock(s, i, j, 60, 59, m.value.value);
        return sec;
      }
      ClockJoins(s, j + 1, sec.value.next, sec.value.next, 1, 59, sec.value.value, 0);
      t, j := t + sec.value.value, sec.value.next;
    }
    ClockJoins(s, i, m.value.next, j, 60, 59, m.value.value, t - m.value.value * Minute);
    r := Success(Read(t, j));
  }

  method ReadSignedTime(s: string, i: nat) returns (r: Reading<int>)
    requires i <= |s|
    ensures r.Success? ==> i < r.value.next <= |s| && SignedTimeAt(s, i, r.value.next, r.value.value)
    ensures r.Failure? ==> forall j: nat, t :: !SignedTimeAt(s, i, j, t)
  {
    if i == |s| {
      return Failure(i);
    }
    var negative, j := false, i;
    if s[i] == '-' {
      negative, j := true, i + 1;
    } else if s[i] == '+' {
      j := i + 1;
    }
    r := ReadUnsignedTime(s, j);
    if r.Success? && negative {
      r := Success(Read(-r.value.value, r.value.next));
    }
  }

  // ---------------------------------------------------------------- abbreviations

  method ReadName(s: string, i: nat) returns (r: Reading<string>)
    requires i <= |s|
    ensures r.Success? ==> NameAt(s, i, r.value.next, r.value.value)
    ensures r.Failure? ==> forall j: nat, name :: !NameAt(s, i, j, name)
  {
    if i == |s| {
      return Failure(i);
    }
    var name, j := "", i;
    if s[i] == '<' {
      j := j + 1;
      while j < |s| && s[j] != '>'
        invariant i < j <= |s| && name == s[i + 1..j] && '>' !in name
      {
        assert s[i + 1..j + 1] == s[i + 1..j] + [s[j]];
        name := name + [s[j]];
        j := j + 1;
      }
      if j == |s| {
        forall k: nat, other ensures !NameAt(s, i, k, other) {
          assert i + 2 <= k <= |s| ==> k - 1 == i || s[k - 1] == name[k - 1 - (i + 1)];
        }
        return Failure(j);
      }
      j := j + 1;
    } else {
      while j != |s| && IsAlpha(s[j])
        invariant i <= j <= |s| && name == s[i..j] && Letters(name)
      {
        assert s[i..j + 1] == s[i..j] + [s[j]];
        name := name + [s[j]];
        j := j + 1;
      }
    }
    r := Success(Read(name, j));
  }

  // ---------------------------------------------------------------- rules

  ghost predicate NoDayAt(s: string, i: nat) {
    forall j: nat, r :: !DayAt(s, i, j, r)
  }

  method ReadDay(s: string, i: nat) returns (r: Reading<Rule>)
    requires i <= |s|
    ensures r.Success? ==> i < r.value.next <= |s| && DayAt(s, i, r.value.next, r.value.value)
    ensures r.Failure? ==> NoDayAt(s, i)
  {
    if i == |s| {
      return Failure(i);
    }
    if s[i] == 'J' {
      var n := ReadUnsigned(s, i + 1, 3);
      if n.Failure? {
        return Failure(n.error);
      }
      if !(1 <= n.value.value <= 365) {
        NoOrdinalDay(s, i, n.value.next, n.value.value);
        return Failure(n.value.next - 1);
      }
      r := Success(Read(Julian(n.value.value, 2 * Hour), n.value.next));
    } else if s[i] == 'M' {
      r := ReadMonthWeek(s, i);
    } else if IsDigit(s[i]) {
      var n := ReadUnsigned(s, i, 3);
      if n.Failure? {
        return Failure(n.error);
      }
      if n.value.value > 365 {
        NoOrdinalDay(s, i, n.value.next, n.value.value);
        return Failure(n.value.next - 1);
      }
      ValueNotNegative(s, i, n.value.next);
      r := Success(Read(DayOfYear(n.value.value, 2 * Hour), n.value.next));
    } else {
      r := Failure(i);
    }
  }

  lemma NoOrdinalDay(s: string, i: nat, k: nat, n: int)
    requires !Next(s, i, 'M')
    requires if Next(s, i, 'J') then NumberAt(s, i + 1, k, 3, n) && !(1 <= n <= 365)
             else NumberAt(s, i, k, 3, n) && n > 365
    ensures NoDayAt(s, i)
  {
    forall j: nat, r ensures !DayAt(s, i, j, r) {
      if DayAt(s, i, j, r) {
        NumberUnique(s, if Next(s, i, 'J') then i + 1 else i, 3, k, n, j, r.n);
      }
    }
  }

  /** After an M, month, week and weekday, with dots between them. */
  method ReadMonthWeek(s: string, i: nat) returns (r: Reading<Rule>)
    requires Next(s, i, 'M')
    ensures r.Success? ==> i < r.value.next <= |s| && DayAt(s, i, r.value.next, r.value.value)
    ensures r.Failure? ==> NoDayAt(s, i)
  {
    var m := ReadUnsigned(s, i + 1, 2);
    if m.Failure? {
      return Failure(m.error);
    }
    if !(1 <= m.value.value <= 12) {
      NoMonth(s, i, m.value.next, m.value.value);
      return Failure(m.value.next - 1);
    }
    var j := m.value.next;
    if !Next(s, j, '.') {
      NoMonth(s, i, j, m.value.value);
      return Failure(j);
    }
    var n := ReadUnsigned(s, j + 1, 1);
    if n.Failure? {
      NoMonth(s, i, j, m.value.value);
      return Failure(n.error);
    }
    if !(1 <= n.value.value <= 5) {
      NoWeek(s, i, j, m.value.value, n.value.next, n.value.value);
      return Failure(n.value.next - 1);
    }
    var k := n.value.next;
    if !Next(s, k, '.') {
      NoWeek(s, i, j, m.value.value, k, n.value.value);
      return Failure(k);
    }
    var wd := ReadUnsigned(s, k + 1, 1);
    if wd.Failure? {
      NoWeek(s, i, j, m.value.value, k, n.value.value);
      return Failure(wd.error);
    }
    if wd.value.value > 6 {
      NoWeekday(s, i, j, m.value.value, k, n.value.value, wd.value.next, wd.value.value);
      return Failure(wd.value.next - 1);
    }
    ValueNotNegative(s, k + 1, wd.value.next);
    assert MonthWeekAt(s, i + 1, wd.value.next, m.value.value, n.value.value, wd.value.value);
    r := Success(Read(MonthWeek(m.value.value, n.value.value, wd.value.value, 2 * Hour), wd.value.next));
  }

  lemma NoMonth(s: string, i: nat, j: nat, m: int)
    requires Next(s, i, 'M') && NumberAt(s, i + 1, j, 2, m)
    requires !(1 <= m <= 12) || !Next(s, j, '.') || NoNumberAt(s, j + 1, 1)
    ensures NoDayAt(s, i)
  {
    forall e: nat, r ensures !DayAt(s, i, e, r) {
      if DayAt(s, i, e, r) {
        MonthIs(s, i, j, m, e, r);
      }
    }
  }

  lemma MonthIs(s: string, i: nat, j: nat, m: int, e: nat, r: Rule)
    requires Next(s, i, 'M') && NumberAt(s, i + 1, j, 2, m) && DayAt(s, i, e, r)
    ensures r.MonthWeek? && r.month == m && Next(s, j, '.')
    ensures exists k: nat :: NumberAt(s, j + 1, k, 1, r.week) && Next(s, k, '.') && NumberAt(s, k + 1, e, 1, r.weekday)
  {
    var k: nat, l: nat :| NumberAt(s, i + 1, k, 2, r.month) && Next(s, k, '.') && NumberAt(s, k + 1, l, 1, r.week)
                          && Next(s, l, '.') && NumberAt(s, l + 1, e, 1, r.weekday);
    NumberUnique(s, i + 1, 2, j, m, k, r.month);
  }

  lemma NoWeek(s: string, i: nat, j: nat, m: int, k: nat, n: int)
    requires Next(s, i, 'M') && NumberAt(s, i + 1, j, 2, m) && NumberAt(s, j + 1, k, 1, n)
    requires !(1 <= n <= 5) || !Next(s, k, '.') || NoNumberAt(s, k + 1, 1)
    ensures NoDayAt(s, i)
  {
    forall e: nat, r ensures !DayAt(s, i, e, r) {
      if DayAt(s, i, e, r) {
        WeekIs(s, i, j, m, k, n, e, r);
      }
    }
  }

  lemma WeekIs(s: string, i: nat, j: nat, m: int, k: nat, n: int, e: nat, r: Rule)
    requires Next(s, i, 'M') && NumberAt(s, i + 1, j, 2, m) && NumberAt(s, j + 1, k, 1, n) && DayAt(s, i, e, r)
    ensures r.MonthWeek? && r.week == n && Next(s, k, '.') && NumberAt(s, k + 1, e, 1, r.weekday)
  {
    MonthIs(s, i, j, m, e, r);
    var l: nat :| NumberAt(s, j + 1, l, 1, r.week) && Next(s, l, '.') && NumberAt(s, l + 1, e, 1, r.weekday);
    NumberUnique(s, j + 1, 1, k, n, l, r.week);
  }

  lemma NoWeekday(s: string, i: nat, j: nat, m: int, k: nat, n: int, l: nat, wd: int)
    requires Next(s, i, 'M') && NumberAt(s, i + 1, j, 2, m) && NumberAt(s, j + 1, k, 1, n)
    requires NumberAt(s, k + 1, l, 1, wd) && wd > 6
    ensures NoDayAt(s, i)
  {
    forall e: nat, r ensures !DayAt(s, i, e, r) {
      if DayAt(s, i, e, r) {
        WeekdayIs(s, i, j, m, k, n, l, wd, e, r);
      }
    }
  }

  lemma WeekdayIs(s: string, i: nat, j: nat, m: int, k: nat, n: int, l: nat, wd: int, e: nat, r: Rule)
    requires Next(s, i, 'M') && NumberAt(s, i + 1, j, 2, m) && NumberAt(s, j + 1, k, 1, n)
    requires NumberAt(s, k + 1, l, 1, wd) && DayAt(s, i, e, r)
    ensures r.MonthWeek? && r.weekday == wd && e == l
  {
    WeekIs(s, i, j, m, k, n, e, r);
    NumberUnique(s, k + 1, 1, l, wd, e, r.weekday);
  }

  ghost predicate NoDateAt(s: string, i: nat) {
    forall j: nat, rule :: !DateAt(s, i, j, rule)
  }

  method ReadDate(s: string, i: nat) returns (r: Reading<Rule>)
    requires i <= |s|
    ensures r.Success? ==> i < r.value.next <= |s| && DateAt(s, i, r.value.next, r.value.value)
    ensures r.Failure? ==> NoDateAt(s, i)
  {
    r := ReadDay(s, i);
    if r.Failure? {
      return;
    }
    var j, d := r.value.next, r.value.value;
    if Next(s, j, '/') {
      var t := ReadUnsignedTime(s, j + 1);
      if t.Failure? {
        NoDate(s, i, j, d);
        return Failure(t.error);
      }
      r := Success(Read(d.(time := t.value.value), t.value.next));
    }
    DateJoins(s, i, j, r.value.next, d, r.value.value);
  }

  lemma NoDate(s: string, i: nat, j: nat, d: Rule)
    requires DayAt(s, i, j, d) && Next(s, j, '/') && NoClockAt(s, j + 1, Hour, 24)
    ensures NoDateAt(s, i)
  {
    forall k: nat, rule ensures !DateAt(s, i, k, rule) {
      if DateAt(s, i, k, rule) {
        var l: nat, e :| DayAt(s, i, l, e) && TimeOfDayAt(s, l, k, e, rule);
        DayUnique(s, i, j, d, l, e);
      }
    }
  }

  // ---------------------------------------------------------------- the order of the fields

  /** What may follow the daylight offset. */
  predicate BothRulesOrNone(f: seq<Field>) {
    f == [] || (|f| == 2 && f[0].YearRule? && f[1].YearRule?)
  }

  /** What may follow the daylight abbreviation. */
  predicate AfterDaylight(f: seq<Field>) {
    BothRulesOrNone(f) || (f != [] && f[0].Offset? && BothRulesOrNone(f[1..]))
  }

  /** What may follow the standard offset. */
  predicate AfterStandard(f: seq<Field>) {
    f == [] || (f[0].Abbrev? && AfterDaylight(f[1..]))
  }

  /** What may follow the standard abbreviation. */
  predicate AfterName(f: seq<Field>) {
    f != [] && f[0].Offset? && AfterStandard(f[1..])
  }

  lemma OrderOfAssembled(f: seq<Field>)
    requires Assemble(f).Some?
    ensures f != [] && f[0].Abbrev? && AfterName(f[1..])
  {
    assert f[1..][1..] == f[2..];
    assert |f| > 2 ==> f[2..][1..] == f[3..];
    assert |f| > 3 ==> f[3..][1..] == f[4..];
  }

  /** The first field of any sequence is the one found. */
  lemma FirstIs(s: string, i: nat, j: nat, first: Field, f: seq<Field>)
    requires FieldsAt(s, i, f) && f != [] && j in Ends(s, i, first) && (f[0].Abbrev? <==> first.Abbrev?)
    ensures f[0] == first && FieldsAt(s, j, f[1..])
  {
    var k :| k in Ends(s, i, f[0]) && FieldsAt(s, k, f[1..]);
    FieldUnique(s, i, j, first, k, f[0]);
  }

  lemma Prepend(s: string, i: nat, j: nat, first: Field, f: seq<Field>)
    requires j in Ends(s, i, first) && FieldsAt(s, j, f)
    ensures FieldsAt(s, i, [first] + f)
  {
    assert ([first] + f)[1..] == f;
  }

  lemma FirstEnds(s: string, i: nat, f: seq<Field>) returns (j: nat)
    requires FieldsAt(s, i, f) && f != []
    ensures j in Ends(s, i, f[0]) && FieldsAt(s, j, f[1..])
  {
    j :| j in Ends(s, i, f[0]) && FieldsAt(s, j, f[1..]);
  }

  // ---------------------------------------------------------------- the parser

  ghost predicate NoRulesAt(s: string, i: nat) {
    forall f :: FieldsAt(s, i, f) ==> !BothRulesOrNone(f)
  }

  /** A rule behind its comma. */
  method ReadRule(s: string, i: nat) returns (r: Reading<Rule>)
    requires Next(s, i, ',')
    ensures r.Success? ==> i < r.value.next <= |s| && r.value.next in Ends(s, i, YearRule(r.value.value))
    ensures r.Failure? ==> NoDateAt(s, i + 1)
  {
    r := ReadDate(s, i + 1);
  }

  /** The two rules, each after a comma, up to the end. */
  method ReadRules(s: string, i: nat) returns (r: Result<(Rule, Rule), int>)
    requires i < |s|
    ensures r.Success? ==> FieldsAt(s, i, [YearRule(r.value.0), YearRule(r.value.1)])
    ensures r.Failure? ==> NoRulesAt(s, i)
  {
    if s[i] != ',' {
      NoFirstRule(s, i);
      return Failure(i);
    }
    var start := ReadRule(s, i);
    if start.Failure? {
      NoFirstRule(s, i);
      return Failure(start.error);
    }
    var j := start.value.next;
    if !Next(s, j, ',') {
      NoSecondRule(s, i, j, start.value.value);
      return Failure(j);
    }
    var end := ReadRule(s, j);
    if end.Failure? {
      NoSecondRule(s, i, j, start.value.value);
      return Failure(end.error);
    }
    if end.value.next != |s| {
      NotTheEnd(s, i, j, start.value.value, end.value.next, end.value.value);
      return Failure(end.value.next);
    }
    BothRulesAt(s, i, j, start.value.value, end.value.value);
    r := Success((start.value.value, end.value.value));
  }

  lemma BothRulesAt(s: string, i: nat, j: nat, start: Rule, end: Rule)
    requires j in Ends(s, i, YearRule(start)) && |s| in Ends(s, j, YearRule(end))
    ensures FieldsAt(s, i, [YearRule(start), YearRule(end)])
  {
    Prepend(s, j, |s|, YearRule(end), []);
    Prepend(s, i, j, YearRule(start), [YearRule(end)]);
    assert [YearRule(start)] + [YearRule(end)] == [YearRule(start), YearRule(end)];
  }

  lemma NoFirstRule(s: string, i: nat)
    requires i < |s| && (s[i] != ',' || NoDateAt(s, i + 1))
    ensures NoRulesAt(s, i)
  {
    forall f | FieldsAt(s, i, f) ensures !BothRulesOrNone(f) {
      EndIsEnd(s, i, f);
      var j := FirstEnds(s, i, f);
    }
  }

  lemma NoSecondRule(s: string, i: nat, j: nat, start: Rule)
    requires j in Ends(s, i, YearRule(start))
    requires !Next(s, j, ',') || NoDateAt(s, j + 1)
    ensures NoRulesAt(s, i)
  {
    forall f | FieldsAt(s, i, f) ensures !BothRulesOrNone(f) {
      if BothRulesOrNone(f) {
        SecondRule(s, i, j, start, f);
      }
    }
  }

  lemma SecondRule(s: string, i: nat, j: nat, start: Rule, f: seq<Field>)
    requires j in Ends(s, i, YearRule(start)) && FieldsAt(s, i, f) && BothRulesOrNone(f)
    ensures |f| == 2 && f[1].YearRule? && Next(s, j, ',') && DateAt(s, j + 1, |s|, f[1].rule)
  {
    EndIsEnd(s, i, f);
    FirstIs(s, i, j, YearRule(start), f);
    var k := FirstEnds(s, j, f[1..]);
    assert f[1..][1..] == [];
  }

  lemma NotTheEnd(s: string, i: nat, j: nat, start: Rule, k: nat, end: Rule)
    requires j in Ends(s, i, YearRule(start)) && k in Ends(s, j, YearRule(end)) && k != |s|
    ensures NoRulesAt(s, i)
  {
    forall f | FieldsAt(s, i, f) ensures !BothRulesOrNone(f) {
      if BothRulesOrNone(f) {
        RulesEnd(s, i, j, start, k, end, f);
      }
    }
  }

  lemma RulesEnd(s: string, i: nat, j: nat, start: Rule, k: nat, end: Rule, f: seq<Field>)
    requires j in Ends(s, i, YearRule(start)) && k in Ends(s, j, YearRule(end))
    requires FieldsAt(s, i, f) && BothRulesOrNone(f)
    ensures k == |s|
  {
    SecondRule(s, i, j, start, f);
    DateUnique(s, j + 1, k, end, |s|, f[1].rule);
  }

  /** The daylight shift and the rules that the fields after the daylight abbreviation state. */
  function Stated(f: seq<Field>, offset: int): (int, Rule, Rule)
    requires AfterDaylight(f)
  {
    if f == [] then (Hour, NoRule, NoRule)
    else if f[0].YearRule? then (Hour, f[0].rule, f[1].rule)
    else if |f| == 1 then (-f[0].time - offset, NoRule, NoRule)
    else (-f[0].time - offset, f[1].rule, f[2].rule)
  }

  ghost predicate NothingAfterDaylightAt(s: string, i: nat) {
    forall f :: FieldsAt(s, i, f) ==> !AfterDaylight(f)
  }

  method ReadRest(s: string, i: nat, offset: int) returns (r: Result<(int, Rule, Rule), int>, ghost f: seq<Field>)
    requires i <= |s|
    ensures r.Success? ==> FieldsAt(s, i, f) && AfterDaylight(f) && r.value == Stated(f, offset)
    ensures r.Failure? ==> NothingAfterDaylightAt(s, i)
  {
    var save, j := Hour, i;
    f := [];
    if i == |s| {
      return Success((save, NoRule, NoRule)), [];
    }
    ghost var shift: seq<Field> := [];
    if s[i] != ',' {
      var t := ReadSignedTime(s, i);
      if t.Failure? {
        NoShift(s, i);
        return Failure(t.error), [];
      }
      save, j := -t.value.value - offset, t.value.next;
      shift := [Offset(t.value.value)];
      if j == |s| {
        OffsetAlone(s, i, t.value.value);
        return Success((save, NoRule, NoRule)), shift;
      }
    }
    r, f := ReadRulesBehind(s, i, j, save, shift, offset);
  }

  /** The rules behind the shift, or where it would stand. */
  method ReadRulesBehind(s: string, i: nat, j: nat, save: int, ghost shift: seq<Field>, ghost offset: int)
    returns (r: Result<(int, Rule, Rule), int>, ghost f: seq<Field>)
    requires i < |s| && j < |s|
    requires if s[i] == ',' then shift == [] && j == i && save == Hour
             else |shift| == 1 && shift[0].Offset? && j in Ends(s, i, shift[0]) && save == -shift[0].time - offset
    ensures r.Success? ==> FieldsAt(s, i, f) && AfterDaylight(f) && r.value == Stated(f, offset)
    ensures r.Failure? ==> NothingAfterDaylightAt(s, i)
  {
    f := [];
    var rules := ReadRules(s, j);
    if rules.Failure? {
      NoRulesFollow(s, i, j, shift);
      return Failure(rules.error), f;
    }
    f := RulesAfterShift(s, i, j, shift, rules.value.0, rules.value.1, offset);
    r := Success((save, rules.value.0, rules.value.1));
  }

  lemma RulesAfterShift(s: string, i: nat, j: nat, shift: seq<Field>, start: Rule, end: Rule, offset: int)
    returns (f: seq<Field>)
    requires FieldsAt(s, j, [YearRule(start), YearRule(end)])
    requires if shift == [] then j == i else |shift| == 1 && shift[0].Offset? && j in Ends(s, i, shift[0])
    ensures FieldsAt(s, i, f) && AfterDaylight(f)
    ensures Stated(f, offset) == (if shift == [] then Hour else -shift[0].time - offset, start, end)
  {
    var rules := [YearRule(start), YearRule(end)];
    f := shift + rules;
    if shift == [] {
      assert shift + rules == rules;
    } else {
      assert shift == [shift[0]];
      Prepend(s, i, j, shift[0], rules);
    }
    ShiftAndRules(shift, start, end, offset);
  }

  lemma ShiftAndRules(shift: seq<Field>, start: Rule, end: Rule, offset: int)
    requires shift == [] || (|shift| == 1 && shift[0].Offset?)
    ensures var f := shift + [YearRule(start), YearRule(end)];
            && AfterDaylight(f)
            && Stated(f, offset) == (if shift == [] then Hour else -shift[0].time - offset, start, end)
  {
    var f := shift + [YearRule(start), YearRule(end)];
    if shift == [] {
      assert f == [YearRule(start), YearRule(end)];
    } else {
      assert f[1..] == [YearRule(start), YearRule(end)];
    }
  }

  lemma OffsetAlone(s: string, i: nat, t: int)
    requires |s| in Ends(s, i, Offset(t))
    ensures FieldsAt(s, i, [Offset(t)])
  {
    Prepend(s, i, |s|, Offset(t), []);
  }

  lemma NoShift(s: string, i: nat)
    requires i < |s| && s[i] != ',' && forall j: nat, t :: !SignedTimeAt(s, i, j, t)
    ensures NothingAfterDaylightAt(s, i)
  {
    forall f | FieldsAt(s, i, f) ensures !AfterDaylight(f) {
      if AfterDaylight(f) {
        EndIsEnd(s, i, f);
        var j := FirstEnds(s, i, f);
      }
    }
  }

  lemma NoRulesFollow(s: string, i: nat, j: nat, shift: seq<Field>)
    requires i < |s| && NoRulesAt(s, j)
    requires if s[i] == ',' then shift == [] && j == i
             else |shift| == 1 && shift[0].Offset? && j in Ends(s, i, shift[0])
    ensures NothingAfterDaylightAt(s, i)
  {
    forall f | FieldsAt(s, i, f) ensures !AfterDaylight(f) {
      if AfterDaylight(f) {
        RulesFollow(s, i, j, shift, f);
      }
    }
  }

  /** Behind the shift, if there is one, stand the rules or nothing. */
  lemma RulesFollow(s: string, i: nat, j: nat, shift: seq<Field>, f: seq<Field>)
    requires FieldsAt(s, i, f) && AfterDaylight(f) && i < |s|
    requires if s[i] == ',' then shift == [] && j == i
             else |shift| == 1 && shift[0].Offset? && j in Ends(s, i, shift[0])
    ensures exists g :: FieldsAt(s, j, g) && BothRulesOrNone(g)
  {
    EndIsEnd(s, i, f);
    if s[i] == ',' {
      var k := FirstEnds(s, i, f);
      if f[0].Offset? {
        OffsetHasNoComma(s, i, k, f[0].time);
      }
    } else {
      FirstIs(s, i, j, shift[0], f);
    }
  }

  /** How the fields of a complete text are put together. */
  lemma AssembleParts(std: string, t: int, dst: string, f: seq<Field>)
    requires AfterDaylight(f)
    ensures var (save, start, end) := Stated(f, -t);
            Assemble([Abbrev(std), Offset(t)] + ([Abbrev(dst)] + f)) == Settle(std, dst, -t, save, start, end)
  {
    var g := [Abbrev(std), Offset(t)] + ([Abbrev(dst)] + f);
    assert g[3..] == f;
    assert |f| > 0 ==> g[4..] == f[1..] && g[3] == f[0];
  }

  /** What the text says of daylight time. */
  datatype Daylight = Daylight(name: string, nameEnd: nat, save: int, start: Rule, end: Rule)

  /** The fields found say this, with what stands in front of them. */
  ghost predicate Says(s: string, std: string, j: nat, t: int, d: Daylight, f: seq<Field>) {
    && FieldsAt(s, j, f) && AfterStandard(f)
    && Assemble([Abbrev(std), Offset(t)] + f) == Settle(std, d.name, -t, d.save, d.start, d.end)
  }

  lemma DaylightReads(s: string, std: string, t: int, j: nat, k: nat, dst: string, f: seq<Field>, r: (int, Rule, Rule))
    requires NameAt(s, j, k, dst) && FieldsAt(s, k, f) && AfterDaylight(f) && r == Stated(f, -t)
    ensures Says(s, std, j, t, Daylight(dst, k, r.0, r.1, r.2), [Abbrev(dst)] + f)
  {
    Prepend(s, j, k, Abbrev(dst), f);
    AssembleParts(std, t, dst, f);
    assert ([Abbrev(dst)] + f)[1..] == f;
  }

  method Parse(s: string) returns (r: Result<PosixZone, int>)
    ensures r.Success? ==> Means(s, r.value)
    ensures r.Failure? ==> forall z :: !Means(s, z)
  {
    var std := ReadName(s, 0);
    if std.Failure? {
      NotAName(s);
      return Failure(std.error);
    }
    var i := std.value.next;
    var t := ReadSignedTime(s, i);
    if t.Failure? {
      NoOffset(s, i, std.value.value);
      return Failure(t.error);
    }
    var j := t.value.next;
    r := ParseDaylight(s, i, std.value.value, j, t.value.value);
  }

  method ReadDaylight(s: string, i: nat, std: string, j: nat, t: int)
    returns (r: Result<Daylight, int>, ghost f: seq<Field>)
    requires NameAt(s, 0, i, std) && SignedTimeAt(s, i, j, t) && j < |s|
    ensures r.Success? ==> Says(s, std, j, t, r.value, f)
    ensures r.Failure? ==> forall z :: !Means(s, z)
  {
    var name := ReadName(s, j);
    if name.Failure? {
      NoDaylight(s, i, std, j, t);
      return Failure(name.error), [];
    }
    r, f := ReadBehindDaylight(s, i, std, j, t, name.value.next, name.value.value);
  }

  method ReadBehindDaylight(s: string, i: nat, std: string, j: nat, t: int, k: nat, dst: string)
    returns (r: Result<Daylight, int>, ghost f: seq<Field>)
    requires NameAt(s, 0, i, std) && SignedTimeAt(s, i, j, t) && NameAt(s, j, k, dst) && k <= |s|
    ensures r.Success? ==> Says(s, std, j, t, r.value, f)
    ensures r.Failure? ==> forall z :: !Means(s, z)
  {
    var rest, g := ReadRest(s, k, -t);
    f := [Abbrev(dst)] + g;
    if rest.Failure? {
      NoRest(s, i, std, j, t, k, dst);
      return Failure(rest.error), f;
    }
    DaylightReads(s, std, t, j, k, dst, g, rest.value);
    r := Success(Daylight(dst, k, rest.value.0, rest.value.1, rest.value.2));
  }

  lemma NothingSaid(s: string, std: string, t: int, stdEnd: nat)
    ensures Says(s, std, |s|, t, Daylight("", stdEnd, Hour, NoRule, NoRule), [])
  {
    assert [Abbrev(std), Offset(t)] + [] == [Abbrev(std), Offset(t)];
  }

  /** The rest of a text that starts with a standard abbreviation and its offset. */
  method ParseDaylight(s: string, i: nat, std: string, j: nat, t: int) returns (r: Result<PosixZone, int>)
    requires NameAt(s, 0, i, std) && SignedTimeAt(s, i, j, t) && j <= |s|
    ensures r.Success? ==> Means(s, r.value)
    ensures r.Failure? ==> forall z :: !Means(s, z)
  {
    var d := Daylight("", i, Hour, NoRule, NoRule);
    ghost var f: seq<Field> := [];
    if j != |s| {
      var read, g := ReadDaylight(s, i, std, j, t);
      if read.Failure? {
        return Failure(read.error);
      }
      d, f := read.value, g;
    } else {
      NothingSaid(s, std, t, i);
    }
    r := Settled(std, i, d.name, d.nameEnd, -t, d.save, d.start, d.end);
    WholeText(s, i, std, j, t, f, r);
  }

  /** The fields found make up the whole text, and no others do. */
  lemma WholeText(s: string, i: nat, std: string, j: nat, t: int, f: seq<Field>, r: Result<PosixZone, int>)
    requires NameAt(s, 0, i, std) && SignedTimeAt(s, i, j, t) && FieldsAt(s, j, f) && AfterStandard(f)
    requires Assemble([Abbrev(std), Offset(t)] + f) == if r.Success? then Some(r.value) else None
    ensures r.Success? ==> Means(s, r.value)
    ensures r.Failure? ==> forall z :: !Means(s, z)
  {
    Prepend(s, i, j, Offset(t), f);
    Prepend(s, 0, i, Abbrev(std), [Offset(t)] + f);
    var fields := [Abbrev(std), Offset(t)] + f;
    assert fields == [Abbrev(std)] + ([Offset(t)] + f);
    if r.Failure? {
      AbbrevsFirst(std, t, f);
      NoOtherMeaning(s, fields);
    }
  }

  /** Which abbreviations the zone keeps. One of three letters must be left, and with rules both; the
      daylight one stands alone if there are no rules. An error is reported behind the one that is too short. */
  method Settled(std: string, stdEnd: int, dst: string, dstEnd: int, offset: int, save: int, start: Rule, end: Rule)
    returns (r: Result<PosixZone, int>)
    ensures r.Success? <==> (|dst| >= 3 || start.Off?) && (|std| >= 3 || (|dst| >= 3 && start.Off?))
    ensures r.Success? ==> r.value.dst == if |dst| >= 3 then dst else ""
    ensures r.Success? ==> r.value.std == if start.Off? && |dst| >= 3 then "" else std
    ensures r.Success? ==> Settle(std, dst, offset, save, start, end) == Some(r.value)
    ensures r.Failure? ==> Settle(std, dst, offset, save, start, end) == None
    ensures r.Failure? ==> r.error == if start.Off? || |std| < 3 then stdEnd else dstEnd
  {
    var zone := PosixZone(std, dst, offset, save, start, end);
    if !start.Off? {
      if |std| < 3 {
        return Failure(stdEnd);
      }
      if |dst| < 3 {
        return Failure(dstEnd);
      }
    } else {
      if |dst| >= 3 {
        zone := zone.(std := "");
      } else if |std| < 3 {
        return Failure(stdEnd);
      } else {
        zone := zone.(dst := "", save := 0);
      }
    }
    r := Success(zone);
  }

  lemma AbbrevsFirst(std: string, t: int, f: seq<Field>)
    requires AfterStandard(f)
    ensures var g := [Abbrev(std), Offset(t)] + f;
            forall k :: 0 <= k < |g| ==> (g[k].Abbrev? <==> k == 0 || k == 2)
  {
    if f != [] {
      var rest := f[1..];
      assert forall k :: 0 <= k < |rest| ==> f[k + 1] == rest[k];
      assert |rest| > 0 ==> forall k :: 0 <= k < |rest[1..]| ==> f[k + 2] == rest[1..][k];
      assert forall k :: 1 <= k < |f| ==> !f[k].Abbrev?;
    }
  }

  lemma NoOtherMeaning(s: string, f: seq<Field>)
    requires FieldsAt(s, 0, f) && Assemble(f) == None
    requires forall k :: 0 <= k < |f| ==> (f[k].Abbrev? <==> k == 0 || k == 2)
    ensures forall z :: !Means(s, z)
  {
    forall z ensures !Means(s, z) {
      if Means(s, z) {
        SoleReading(s, f, z);
      }
    }
  }

  lemma SoleReading(s: string, f: seq<Field>, z: PosixZone)
    requires FieldsAt(s, 0, f) && Means(s, z)
    requires forall k :: 0 <= k < |f| ==> (f[k].Abbrev? <==> k == 0 || k == 2)
    ensures Assemble(f) == Some(z)
  {
    var g: seq<Field> :| FieldsAt(s, 0, g) && Assemble(g) == Some(z);
    AbbrevsInPlace(g);
    FieldsUnique(s, 0, f, g);
  }

  lemma NotAName(s: string)
    requires forall j: nat, name :: !NameAt(s, 0, j, name)
    ensures forall z :: !Means(s, z)
  {
    forall z ensures !Means(s, z) {
      if Means(s, z) {
        var j, name := NameOfMeaning(s, z);
      }
    }
  }

  lemma NameOfMeaning(s: string, z: PosixZone) returns (j: nat, name: string)
    requires Means(s, z)
    ensures NameAt(s, 0, j, name)
  {
    var f: seq<Field> :| FieldsAt(s, 0, f) && Assemble(f) == Some(z);
    OrderOfAssembled(f);
    j := FirstEnds(s, 0, f);
    var first := f[0];
    name := first.name;
  }

  /** What stands behind the standard abbreviation of a text with a meaning. */
  lemma BehindName(s: string, i: nat, std: string, z: PosixZone) returns (f: seq<Field>)
    requires Means(s, z) && NameAt(s, 0, i, std)
    ensures FieldsAt(s, i, f) && AfterName(f)
  {
    var g: seq<Field> :| FieldsAt(s, 0, g) && Assemble(g) == Some(z);
    OrderOfAssembled(g);
    assert i in Ends(s, 0, Abbrev(std));
    FirstIs(s, 0, i, Abbrev(std), g);
    f := g[1..];
  }

  lemma BehindOffset(s: string, i: nat, std: string, j: nat, t: int, z: PosixZone) returns (f: seq<Field>)
    requires Means(s, z) && NameAt(s, 0, i, std) && SignedTimeAt(s, i, j, t)
    ensures FieldsAt(s, j, f) && AfterStandard(f)
  {
    var g := BehindName(s, i, std, z);
    assert j in Ends(s, i, Offset(t));
    FirstIs(s, i, j, Offset(t), g);
    f := g[1..];
  }

  lemma NoOffset(s: string, i: nat, std: string)
    requires NameAt(s, 0, i, std) && forall j: nat, t :: !SignedTimeAt(s, i, j, t)
    ensures forall z :: !Means(s, z)
  {
    forall z ensures !Means(s, z) {
      if Means(s, z) {
        var f := BehindName(s, i, std, z);
        var j := FirstEnds(s, i, f);
      }
    }
  }

  lemma NoDaylight(s: string, i: nat, std: string, j: nat, t: int)
    requires NameAt(s, 0, i, std) && SignedTimeAt(s, i, j, t) && j != |s|
    requires forall k: nat, name :: !NameAt(s, j, k, name)
    ensures forall z :: !Means(s, z)
  {
    forall z ensures !Means(s, z) {
      if Means(s, z) {
        var f := BehindOffset(s, i, std, j, t, z);
        EndIsEnd(s, j, f);
        var k := FirstEnds(s, j, f);
      }
    }
  }

  lemma NoRest(s: string, i: nat, std: string, j: nat, t: int, k: nat, dst: string)
    requires NameAt(s, 0, i, std) && SignedTimeAt(s, i, j, t) && NameAt(s, j, k, dst)
    requires NothingAfterDaylightAt(s, k)
    ensures forall z :: !Means(s, z)
  {
    forall z ensures !Means(s, z) {
      if Means(s, z) {
        var f := BehindOffset(s, i, std, j, t, z);
        EndIsEnd(s, j, f);
        assert k in Ends(s, j, Abbrev(dst));
        FirstIs(s, j, k, Abbrev(dst), f);
      }
    }
  }

  // ---------------------------------------------------------------- the printer

  /** Hours, minutes and seconds of a time that is not negative. */
  method PrintHms(t: nat) returns (nm: string)
    ensures nm == Hms(t)
  {
    var hours, minutes, seconds := t / Hour, t % Hour / Minute, t % Minute;
    nm := Dec(hours);
    if minutes != 0 || seconds != 0 {
      var two := PrintTwoDigits(minutes);
      nm := nm + (":" + two);
      if seconds != 0 {
        var last := PrintTwoDigits(seconds);
        assert nm + (":" + last) == Dec(hours) + (":" + (two + (":" + last)));
        nm := nm + (":" + last);
      } else {
        assert two + "" == two;
      }
    }
  }

  method PrintTwoDigits(n: nat) returns (nm: string)
    ensures nm == TwoDigits(n)
  {
    nm := "";
    if n < 10 {
      nm := nm + "0";
    }
    nm := nm + Dec(n);
  }

  method PrintOffset(off: int) returns (nm: string)
    ensures nm == OffsetText(off)
  {
    nm := PrintHms(Abs(off));
    if -off < 0 {
      nm := "-" + nm;
    }
  }

  method PrintDay(r: Rule) returns (nm: string)
    requires RuleOk(r)
    ensures nm == DayText(r)
  {
    match r {
      case Julian(n, _) =>
        nm := "J" + Dec(n);
      case MonthWeek(m, n, wd, _) =>
        nm := "M" + Dec(m);
        nm := nm + ".";
        nm := nm + Dec(n);
        nm := nm + ".";
        nm := nm + Dec(wd);
        assert nm == "M" + Dec(m) + "." + Dec(n) + "." + Dec(wd);
      case DayOfYear(n, _) =>
        nm := Dec(n);
    }
  }

  method PrintRule(r: Rule) returns (nm: string)
    requires RuleOk(r)
    ensures nm == RuleText(r)
  {
    nm := PrintDay(r);
    if r.time != 2 * Hour {
      var hms := PrintHms(r.time);
      nm := nm + ("/" + hms);
    }
  }

  method Name(z: PosixZone) returns (nm: string)
    requires Good(z)
    ensures nm == NameOf(z)
  {
    var offset := PrintOffset(z.offset);
    nm := AbbrevText(z.std) + offset;
    if z.dst != "" {
      var daylight := PrintDaylight(z);
      nm := nm + daylight;
    }
    NameInParts(z);
  }

  function DaylightFields(z: PosixZone): seq<Field> {
    [Abbrev(z.dst)] + (if z.save == Hour then [] else [Offset(-(z.offset + z.save))])
    + if z.start.Off? then [] else [YearRule(z.start), YearRule(z.end)]
  }

  lemma NameInParts(z: PosixZone)
    ensures NameOf(z)
         == AbbrevText(z.std) + OffsetText(z.offset) + if z.dst == "" then "" else FieldsText(DaylightFields(z))
  {
    FieldsInParts(z);
    FrontText(z.std, z.offset);
    Concatenated([Abbrev(z.std), Offset(-z.offset)], if z.dst == "" then [] else DaylightFields(z));
  }

  lemma FieldsInParts(z: PosixZone)
    ensures Fields(z) == [Abbrev(z.std), Offset(-z.offset)] + if z.dst == "" then [] else DaylightFields(z)
  {
  }

  lemma FrontText(std: string, offset: int)
    ensures FieldsText([Abbrev(std), Offset(-offset)]) == AbbrevText(std) + OffsetText(offset)
  {
    TwoFields(Abbrev(std), Offset(-offset));
  }

  lemma NothingBehind(s: string)
    ensures s + "" == s
  {
  }

  method PrintDaylight(z: PosixZone) returns (nm: string)
    requires Good(z) && z.dst != ""
    ensures nm == FieldsText(DaylightFields(z))
  {
    nm := AbbrevText(z.dst);
    if z.save != Hour {
      var shift := PrintOffset(z.offset + z.save);
      nm := nm + shift;
    } else {
      NothingBehind(nm);
    }
    if !z.start.Off? {
      var start := PrintRule(z.start);
      var end := PrintRule(z.end);
      nm := nm + (("," + start) + ("," + end));
    } else {
      NothingBehind(nm);
    }
    DaylightInParts(z);
  }

  function ShiftFields(z: PosixZone): seq<Field> {
    if z.save == Hour then [] else [Offset(-(z.offset + z.save))]
  }

  function RuleFields(z: PosixZone): seq<Field> {
    if z.start.Off? then [] else [YearRule(z.start), YearRule(z.end)]
  }

  function ShiftText(z: PosixZone): string {
    if z.save == Hour then "" else OffsetText(z.offset + z.save)
  }

  function RulesText(z: PosixZone): string {
    if z.start.Off? then "" else ("," + RuleText(z.start)) + ("," + RuleText(z.end))
  }

  lemma DaylightInParts(z: PosixZone)
    ensures FieldsText(DaylightFields(z)) == AbbrevText(z.dst) + ShiftText(z) + RulesText(z)
  {
    ThreeConcatenated([Abbrev(z.dst)], ShiftFields(z), RuleFields(z));
    OneField(Abbrev(z.dst));
    ShiftInParts(z);
    RulesInParts(z);
    DaylightIs(z);
  }

  lemma DaylightIs(z: PosixZone)
    ensures DaylightFields(z) == [Abbrev(z.dst)] + ShiftFields(z) + RuleFields(z)
  {
  }

  lemma ThreeConcatenated(f: seq<Field>, g: seq<Field>, h: seq<Field>)
    ensures FieldsText(f + g + h) == FieldsText(f) + FieldsText(g) + FieldsText(h)
  {
    Concatenated(f + g, h);
    Concatenated(f, g);
  }

  lemma ShiftInParts(z: PosixZone)
    ensures FieldsText(ShiftFields(z)) == ShiftText(z)
  {
    if z.save != Hour {
      OneField(Offset(-(z.offset + z.save)));
    }
  }

  lemma RulesInParts(z: PosixZone)
    ensures FieldsText(RuleFields(z)) == RulesText(z)
  {
    if !z.start.Off? {
      TwoFields(YearRule(z.start), YearRule(z.end));
    }
  }

  lemma OneField(f: Field)
    ensures FieldsText([f]) == FieldText(f)
  {
    assert [f][1..] == [];
  }

  lemma TwoFields(f: Field, g: Field)
    ensures FieldsText([f, g]) == FieldText(f) + FieldText(g)
  {
    assert [f, g][1..] == [g] && [g][1..] == [];
    assert FieldsText([g]) == FieldText(g);
  }

  lemma {:induction false} Concatenated(f: seq<Field>, g: seq<Field>)
    ensures FieldsText(f + g) == FieldsText(f) + FieldsText(g)
    decreases |f|
  {
    if f == [] {
      assert f + g == g;
    } else {
      assert (f + g)[1..] == f[1..] + g;
      Concatenated(f[1..], g);
    }
  }

  // ---------------------------------------------------------------- round trip

  /** For every text that is accepted, reading the name of its zone gives the same zone, with the time
      of day of each rule. */
  method RoundTrip(s: string) returns (first: Result<PosixZone, int>, second: Result<PosixZone, int>)
    ensures first.Success? ==> second == first
    ensures first.Failure? <==> forall z :: !Means(s, z)
  {
    first := Parse(s);
    second := first;
    if first.Success? {
      MeaningIsGood(s, first.value);
      var name := Name(first.value);
      second := Parse(name);
      NameMeans(first.value);
      MeaningIsUnique(name, first.value, second.value);
    }
  }
}
