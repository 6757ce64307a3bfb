/**
 The text form of a POSIX time zone (section 8.3 of IEEE Std 1003.1, Base Definitions): the language
 that is accepted, and the canonical text that is written. Letters and digits are those of the "C"
 locale.
 */
module TzText {
  import opened Common
  import opened Wrappers
  import opened Text
  import opened TzRuleForm

  datatype PosixZone = PosixZone(std: string, dst: string, offset: int, save: int, start: Rule, end: Rule)

  const Hour := 3600
  const Minute := 60

  /** The rules of a zone that has none; a rule applies at two o'clock unless it says otherwise. */
  const NoRule := Off(2 * Hour)

  predicate IsAlpha(c: char) {
    'a' <= c <= 'z' || 'A' <= c <= 'Z'
  }

  // ---------------------------------------------------------------- the language

  /** From `i` to `j` stands the number `n`, with as many digits as are there, up to the limit. */
  ghost predicate NumberAt(s: string, i: nat, j: nat, limit: nat, n: int) {
    && i < j <= |s| && j - i <= limit
    && (j - i == limit || Stops(s, j, IsDigit))
    && DigitsFrom(s, i, j) && n == ValueOf(s, i, j)
  }

  /** Numbers of at most two digits, the first one up to `most`, each counting a sixtieth of the unit
      before it. Colons separate them, and only the first number must be there. */
  ghost predicate ClockAt(s: string, i: nat, j: nat, unit: int, most: int, t: int)
    decreases if i < |s| then |s| - i else 0
  {
    exists k: nat, n, rest ::
      && NumberAt(s, i, k, 2, n) && n <= most && ClockRestAt(s, k, j, unit, rest) && t == n * unit + rest
  }

  ghost predicate ClockRestAt(s: string, i: nat, j: nat, unit: int, t: int)
    decreases if i < |s| then |s| - i else 0
  {
    if Next(s, i, ':') && unit > 1 then ClockAt(s, i + 1, j, unit / 60, 59, t) else j == i && t == 0
  }

  /** Hours, and minutes and seconds if they follow. */
  ghost predicate TimeAt(s: string, i: nat, j: nat, t: int) {
    ClockAt(s, i, j, Hour, 24, t)
  }

  ghost predicate SignedTimeAt(s: string, i: nat, j: nat, t: int) {
    if Next(s, i, '-') then TimeAt(s, i + 1, j, -t)
    else TimeAt(s, if Next(s, i, '+') then i + 1 else i, j, t)
  }

  /** An abbreviation: anything in angle brackets, or letters. */
  ghost predicate NameAt(s: string, i: nat, j: nat, name: string) {
    && i < |s|
    && if s[i] == '<' then
         && i + 2 <= j <= |s| && s[j - 1] == '>'
         && name == s[i + 1..j - 1] && '>' !in name
       else
         && i <= j <= |s| && Stops(s, j, IsAlpha)
         && name == s[i..j] && Letters(name)
  }

  predicate Letters(p: string) {
    forall k :: 0 <= k < |p| ==> IsAlpha(p[k])
  }

  ghost predicate MonthWeekAt(s: string, i: nat, j: nat, m: int, n: int, wd: int) {
    exists k: nat, l: nat {:trigger NumberAt(s, i, k, 2, m), NumberAt(s, k + 1, l, 1, n)} ::
      && NumberAt(s, i, k, 2, m) && Next(s, k, '.')
      && NumberAt(s, k + 1, l, 1, n) && Next(s, l, '.')
      && NumberAt(s, l + 1, j, 1, wd)
  }

  /** The day of a rule, which applies at two o'clock. */
  ghost predicate DayAt(s: string, i: nat, j: nat, r: Rule) {
    && InRange(r)
    && match r
       case Off(_) => false
       case Julian(n, t) => Next(s, i, 'J') && NumberAt(s, i + 1, j, 3, n) && t == 2 * Hour
       case MonthWeek(m, n, wd, t) => Next(s, i, 'M') && MonthWeekAt(s, i + 1, j, m, n, wd) && t == 2 * Hour
       case DayOfYear(n, t) => NumberAt(s, i, j, 3, n) && t == 2 * Hour
  }

  ghost predicate DateAt(s: string, i: nat, j: nat, r: Rule) {
    exists k: nat, d :: DayAt(s, i, k, d) && TimeOfDayAt(s, k, j, d, r)
  }

  ghost predicate TimeOfDayAt(s: string, i: nat, j: nat, d: Rule, r: Rule) {
    if Next(s, i, '/') then TimeAt(s, i + 1, j, r.time) && r == d.(time := r.time) else j == i && r == d
  }

  /** The parts of a zone's text. */
  datatype Field = Abbrev(name: string) | Offset(time: int) | YearRule(rule: Rule)

  ghost predicate FieldAt(s: string, i: nat, j: nat, f: Field) {
    match f
    case Abbrev(name) => NameAt(s, i, j, name)
    case Offset(t) => SignedTimeAt(s, i, j, t)
    case YearRule(r) => Next(s, i, ',') && DateAt(s, i + 1, j, r)
  }

  /** Where the field may end if it starts at `i`. */
  ghost function Ends(s: string, i: nat, f: Field): iset<nat> {
    iset j: nat | FieldAt(s, i, j, f)
  }

  /** From `i` to the end stand these fields. */
  ghost predicate FieldsAt(s: string, i: nat, fields: seq<Field>)
    decreases |fields|
  {
    if fields == [] then i == |s|
    else exists j :: j in Ends(s, i, fields[0]) && FieldsAt(s, j, fields[1..])
  }

  /** An abbreviation counts if it has three letters. A zone with rules needs both, any other one of them;
      without rules it keeps one, the daylight one if that counts, and without that one no shift. */
  function Settle(std: string, dst: string, offset: int, save: int, start: Rule, end: Rule): Option<PosixZone> {
    var named, ruled := |dst| >= 3, !start.Off?;
    if (if ruled then named && |std| >= 3 else named || |std| >= 3) then
      Some(PosixZone(if named && !ruled then "" else std, if named then dst else "", offset,
                     if named then save else 0, start, end))
    else None
  }

  /** The zone that a sequence of fields describes: two abbreviations with their offsets, the second
      one an hour ahead if it has none, and then both rules or neither. */
  function Assemble(f: seq<Field>): Option<PosixZone> {
    if |f| < 2 || !f[0].Abbrev? || !f[1].Offset? then None
    else if |f| == 2 then Settle(f[0].name, "", -f[1].time, Hour, NoRule, NoRule)
    else if !f[2].Abbrev? then None
    else if |f| > 3 && f[3].Offset? then WithRules(f[0].name, f[2].name, -f[1].time, -f[3].time + f[1].time, f[4..])
    else WithRules(f[0].name, f[2].name, -f[1].time, Hour, f[3..])
  }

  function WithRules(std: string, dst: string, offset: int, save: int, rules: seq<Field>): Option<PosixZone> {
    if rules == [] then Settle(std, dst, offset, save, NoRule, NoRule)
    else if |rules| == 2 && rules[0].YearRule? && rules[1].YearRule? then
      Settle(std, dst, offset, save, rules[0].rule, rules[1].rule)
    else None
  }

  /** The whole text means the zone `z`. */
  ghost predicate Means(s: string, z: PosixZone) {
    exists fields :: FieldsAt(s, 0, fields) && Assemble(fields) == Some(z)
  }

  // ---------------------------------------------------------------- the canonical text

  function Dec(n: nat): string {
    if n < 10 then ['0' + n as char] else Dec(n / 10) + ['0' + (n % 10) as char]
  }

  function TwoDigits(n: nat): string {
    if n < 10 then "0" + Dec(n) else Dec(n)
  }

  /** Hours, and minutes and seconds where they are needed. */
  function Hms(t: nat): string {
    Dec(t / Hour) + MinutesText(t % Hour / Minute, t % Minute)
  }

  function MinutesText(m: nat, sec: nat): string {
    if m == 0 && sec == 0 then "" else ":" + (TwoDigits(m) + SecondsText(sec))
  }

  function SecondsText(sec: nat): string {
    if sec == 0 then "" else ":" + TwoDigits(sec)
  }

  /** POSIX counts offsets westwards. */
  function OffsetText(off: int): string {
    if -off < 0 then "-" + Hms(Abs(off)) else Hms(Abs(off))
  }

  function AbbrevText(name: string): string {
    if Letters(name) then name else "<" + (name + ">")
  }

  function DayText(r: Rule): string {
    match r
    case Off(_) => ""
    case Julian(n, _) => "J" + Dec(Abs(n))
    case MonthWeek(m, n, wd, _) => "M" + (Dec(Abs(m)) + ("." + (Dec(Abs(n)) + ("." + Dec(Abs(wd))))))
    case DayOfYear(n, _) => Dec(Abs(n))
  }

  function RuleText(r: Rule): string {
    DayText(r) + ClockText(r)
  }

  function ClockText(r: Rule): string {
    if r.time == 2 * Hour then "" else "/" + Hms(Abs(r.time))
  }

  function FieldText(f: Field): string {
    match f
    case Abbrev(name) => AbbrevText(name)
    case Offset(t) => OffsetText(-t)
    case YearRule(r) => "," + RuleText(r)
  }

  function FieldsText(fields: seq<Field>): string {
    if fields == [] then "" else FieldText(fields[0]) + FieldsText(fields[1..])
  }

  /** The fields of a zone's canonical text: the daylight offset is left out when it is one hour. */
  function Fields(z: PosixZone): seq<Field> {
    [Abbrev(z.std), Offset(-z.offset)] +
    if z.dst == "" then []
    else
      [Abbrev(z.dst)] + (if z.save == Hour then [] else [Offset(-(z.offset + z.save))])
      + if z.start.Off? then [] else [YearRule(z.start), YearRule(z.end)]
  }

  function NameOf(z: PosixZone): string {
    FieldsText(Fields(z))
  }

  // ---------------------------------------------------------------- comparison

  function RulesEqual(x: Rule, y: Rule): bool {
    match (x, y)
    case (Julian(m, _), Julian(n, _)) => m == n
    case (DayOfYear(m, _), DayOfYear(n, _)) => m == n
    case (MonthWeek(m, n, wd, _), MonthWeek(m', n', wd', _)) => m == m' && n == n' && wd == wd'
    case (Off(_), Off(_)) => true
    case _ => false
  }

  function ZonesEqual(x: PosixZone, y: PosixZone): bool {
    x.std == y.std && x.dst == y.dst && x.offset == y.offset && x.save == y.save &&
    RulesEqual(x.start, y.start) && RulesEqual(x.end, y.end)
  }

  /** Comparison leaves out the times of day of the rules, and nothing else. */
  lemma EqualUpToTimes(x: PosixZone, y: PosixZone)
    ensures ZonesEqual(x, y) <==> exists t, u :: y == x.(start := x.start.(time := t), end := x.end.(time := u))
  {
    if ZonesEqual(x, y) {
      assert y == x.(start := x.start.(time := y.start.time), end := x.end.(time := y.end.time));
    }
  }

  // ---------------------------------------------------------------- the zones that texts can mean

  predicate GoodTime(t: int) {
    -25 * Hour < t < 25 * Hour
  }

  predicate RuleOk(r: Rule) {
    InRange(r) && !r.Off? && 0 <= r.time < 25 * Hour
  }

  predicate RulesOk(start: Rule, end: Rule) {
    start == end == NoRule || (RuleOk(start) && RuleOk(end))
  }

  predicate Good(z: PosixZone) {
    && '>' !in z.std && '>' !in z.dst && GoodTime(z.offset) && RulesOk(z.start, z.end)
    && (if |z.dst| < 3 then z.dst == "" && |z.std| >= 3 && z.start.Off? && z.save == 0
        else (z.save == Hour || GoodTime(z.offset + z.save)) && (if z.start.Off? then z.std == "" else |z.std| >= 3))
  }

  lemma {:induction false} ClockIsGood(s: string, i: nat, j: nat, unit: int, most: int, t: int)
    requires ClockAt(s, i, j, unit, most, t) && unit in {1, 60, 3600}
    ensures 0 <= t < (most + 1) * unit
    decreases unit
  {
    var k: nat, n, rest :|
      NumberAt(s, i, k, 2, n) && n <= most && ClockRestAt(s, k, j, unit, rest) && t == n * unit + rest;
    ValueNotNegative(s, i, k);
    if Next(s, k, ':') && unit > 1 {
      ClockIsGood(s, k + 1, j, unit / 60, 59, rest);
    }
  }

  lemma DateIsGood(s: string, i: nat, j: nat, r: Rule)
    requires DateAt(s, i, j, r)
    ensures RuleOk(r)
  {
    var k: nat, d :| DayAt(s, i, k, d) && TimeOfDayAt(s, k, j, d, r);
    if Next(s, k, '/') {
      ClockIsGood(s, k + 1, j, Hour, 24, r.time);
    }
  }

  lemma SignedTimeIsGood(s: string, i: nat, j: nat, t: int)
    requires SignedTimeAt(s, i, j, t)
    ensures GoodTime(t)
  {
    if Next(s, i, '-') {
      ClockIsGood(s, i + 1, j, Hour, 24, -t);
    } else {
      ClockIsGood(s, if Next(s, i, '+') then i + 1 else i, j, Hour, 24, t);
    }
  }

  predicate FieldOk(f: Field) {
    match f
    case Abbrev(name) => '>' !in name
    case Offset(t) => GoodTime(t)
    case YearRule(r) => RuleOk(r)
  }

  predicate AllOk(fields: seq<Field>) {
    forall k :: 0 <= k < |fields| ==> FieldOk(fields[k])
  }

  lemma FieldIsGood(s: string, i: nat, j: nat, f: Field)
    requires j in Ends(s, i, f)
    ensures FieldOk(f)
  {
    match f {
      case Abbrev(name) =>
      case Offset(t) => SignedTimeIsGood(s, i, j, t);
      case YearRule(r) => DateIsGood(s, i + 1, j, r);
    }
  }

  lemma {:induction false} FieldsAreGood(s: string, i: nat, fields: seq<Field>)
    requires FieldsAt(s, i, fields)
    ensures AllOk(fields)
    decreases |fields|
  {
    if fields != [] {
      var j :| j in Ends(s, i, fields[0]) && FieldsAt(s, j, fields[1..]);
      FieldIsGood(s, i, j, fields[0]);
      FieldsAreGood(s, j, fields[1..]);
      assert fields == [fields[0]] + fields[1..];
    }
  }

  lemma MeaningIsGood(s: string, z: PosixZone)
    requires Means(s, z)
    ensures Good(z)
  {
    var fields :| FieldsAt(s, 0, fields) && Assemble(fields) == Some(z);
    FieldsAreGood(s, 0, fields);
    AssembledIsGood(fields);
  }

  lemma AssembledIsGood(f: seq<Field>)
    requires AllOk(f) && Assemble(f).Some?
    ensures Good(Assemble(f).value)
  {
  }

  // ---------------------------------------------------------------- the canonical text has its meaning

  lemma DecimalAt(s: string, i: nat, j: nat, limit: nat, p: string, n: int)
    requires At(s, i, j, p) && Decimal(p, n) && 1 <= |p| <= limit
    requires |p| == limit || Stops(s, j, IsDigit)
    ensures NumberAt(s, i, j, limit, n)
  {
    ValueInside(s, i, p, |p|);
    AtIsSlice(s, i, j, p);
  }

  lemma {:induction false} SameValue(p: string, q: string, l: nat)
    requires l <= |p| && l <= |q| && p[..l] == q[..l]
    ensures ValueOf(p, 0, l) == ValueOf(q, 0, l)
  {
    if l > 0 {
      assert p[..l][..l - 1] == p[..l - 1] && q[..l][..l - 1] == q[..l - 1];
      assert p[l - 1] == p[..l][l - 1] && q[l - 1] == q[..l][l - 1];
      SameValue(p, q, l - 1);
    }
  }

  lemma {:induction false} DecIsDecimal(n: nat)
    ensures Decimal(Dec(n), n) && |Dec(n)| >= 1
    ensures n < 10 ==> |Dec(n)| == 1
    ensures n < 100 ==> |Dec(n)| <= 2
    ensures n < 1000 ==> |Dec(n)| <= 3
    ensures 10 <= n ==> |Dec(n)| >= 2
  {
    if n >= 10 {
      DecIsDecimal(n / 10);
      var p, q := Dec(n), Dec(n / 10);
      assert p[..|q|] == q == q[..|q|];
      SameValue(p, q, |q|);
    }
  }

  lemma DecAt(s: string, i: nat, j: nat, limit: nat, n: nat)
    requires At(s, i, j, Dec(n)) && (j - i == limit || Stops(s, j, IsDigit))
    requires (limit == 1 && n < 10) || (limit == 2 && n < 100) || (limit == 3 && n < 1000)
    ensures NumberAt(s, i, j, limit, n)
  {
    DecIsDecimal(n);
    DecimalAt(s, i, j, limit, Dec(n), n);
  }

  lemma TwoDigitsAreDecimal(n: nat)
    requires n < 100
    ensures |TwoDigits(n)| == 2 && Decimal(TwoDigits(n), n)
  {
    DecIsDecimal(n);
    if n < 10 {
      var p := TwoDigits(n);
      assert p[0] == '0' && p[1] == Dec(n)[0];
      assert ValueOf(p, 0, 1) == 0;
      assert ValueOf(Dec(n), 0, 0) == 0;
    }
  }

  lemma TwoDigitsAt(s: string, i: nat, j: nat, n: nat)
    requires At(s, i, j, TwoDigits(n)) && n <= 59
    ensures NumberAt(s, i, j, 2, n)
  {
    TwoDigitsAreDecimal(n);
    DecimalAt(s, i, j, 2, TwoDigits(n), n);
  }

  predicate DigitOrColon(c: char) {
    IsDigit(c) || c == ':'
  }

  lemma SecondsTextAt(s: string, i: nat, j: nat, sec: nat)
    requires At(s, i, j, SecondsText(sec)) && sec <= 59 && Stops(s, j, DigitOrColon)
    ensures ClockRestAt(s, i, j, 60, sec)
  {
    if sec != 0 {
      SplitChar(s, i, j, ':', TwoDigits(sec));
      TwoDigitsAt(s, i + 1, j, sec);
      assert NumberAt(s, i + 1, j, 2, sec) && ClockRestAt(s, j, j, 1, 0);
    }
  }

  lemma MinutesTextAt(s: string, i: nat, j: nat, m: nat, sec: nat)
    requires At(s, i, j, MinutesText(m, sec)) && m <= 59 && sec <= 59 && Stops(s, j, DigitOrColon)
    ensures ClockRestAt(s, i, j, Hour, m * Minute + sec) && Stops(s, i, IsDigit)
  {
    if m != 0 || sec != 0 {
      SplitItem(s, i, j, ':', TwoDigits(m), SecondsText(sec));
      MinutesPartsAt(s, i + 1, i + 1 + |TwoDigits(m)|, j, m, sec);
    }
  }

  lemma MinutesPartsAt(s: string, i: nat, k: nat, j: nat, m: nat, sec: nat)
    requires m <= 59 && sec <= 59 && Stops(s, j, DigitOrColon)
    requires At(s, i, k, TwoDigits(m)) && At(s, k, j, SecondsText(sec))
    ensures ClockAt(s, i, j, 60, 59, m * Minute + sec)
  {
    TwoDigitsAt(s, i, k, m);
    SecondsTextAt(s, k, j, sec);
  }

  lemma ClockJoins(s: string, i: nat, k: nat, j: nat, unit: int, most: int, n: int, rest: int)
    requires NumberAt(s, i, k, 2, n) && n <= most && ClockRestAt(s, k, j, unit, rest)
    ensures ClockAt(s, i, j, unit, most, n * unit + rest)
  {
  }

  lemma HmsAt(s: string, i: nat, j: nat, t: nat)
    requires At(s, i, j, Hms(t)) && t < 25 * Hour && Stops(s, j, DigitOrColon)
    ensures TimeAt(s, i, j, t)
  {
    TimeParts(t);
    Split(s, i, j, Dec(t / Hour), MinutesText(t % Hour / Minute, t % Minute));
    HmsPartsAt(s, i, i + |Dec(t / Hour)|, j, t / Hour, t % Hour / Minute, t % Minute);
  }

  lemma TimeParts(t: nat)
    ensures t == t / Hour * Hour + (t % Hour / Minute * Minute + t % Minute)
    ensures t % Hour / Minute < 60 && t % Minute < 60 && (t < 25 * Hour ==> t / Hour <= 24)
  {
  }

  lemma HmsPartsAt(s: string, i: nat, k: nat, j: nat, h: nat, m: nat, sec: nat)
    requires h <= 24 && m <= 59 && sec <= 59 && Stops(s, j, DigitOrColon)
    requires At(s, i, k, Dec(h)) && At(s, k, j, MinutesText(m, sec))
    ensures ClockAt(s, i, j, Hour, 24, h * Hour + (m * Minute + sec))
  {
    MinutesTextAt(s, k, j, m, sec);
    DecAt(s, i, k, 2, h);
    ClockJoins(s, i, k, j, Hour, 24, h, m * Minute + sec);
  }

  lemma OffsetTextAt(s: string, i: nat, j: nat, off: int)
    requires At(s, i, j, OffsetText(off)) && GoodTime(off) && Stops(s, j, DigitOrColon)
    ensures SignedTimeAt(s, i, j, -off)
  {
    OffsetTextStarts(s, i, j, off);
    if off > 0 {
      SplitChar(s, i, j, '-', Hms(off));
      HmsAt(s, i + 1, j, off);
    } else {
      HmsAt(s, i, j, -off);
    }
  }

  lemma OffsetTextStarts(s: string, i: nat, j: nat, off: int)
    requires At(s, i, j, OffsetText(off))
    ensures i < j && (s[i] == '-' <==> off > 0) && (s[i] == '-' || IsDigit(s[i]))
  {
    var h := Dec(Abs(off) / Hour);
    DecIsDecimal(Abs(off) / Hour);
    assert Hms(Abs(off))[0] == h[0];
    FirstChar(s, i, j, OffsetText(off));
  }

  lemma AbbrevTextAt(s: string, i: nat, j: nat, name: string)
    requires At(s, i, j, AbbrevText(name)) && '>' !in name && i < |s|
    requires Letters(name) ==> Stops(s, j, IsAlpha) && (name == "" ==> s[i] != '<')
    ensures NameAt(s, i, j, name)
  {
    if Letters(name) {
      AtIsSlice(s, i, j, name);
    } else {
      QuotedAt(s, i, j, name);
    }
  }

  lemma QuotedAt(s: string, i: nat, j: nat, name: string)
    requires At(s, i, j, "<" + (name + ">")) && '>' !in name
    ensures NameAt(s, i, j, name)
  {
    SplitItem(s, i, j, '<', name, ">");
    FirstChar(s, j - 1, j, ">");
    AtIsSlice(s, i + 1, j - 1, name);
  }

  lemma AbbrevTextStarts(s: string, i: nat, j: nat, name: string)
    requires At(s, i, j, AbbrevText(name)) && name != ""
    ensures i < |s| && (s[i] == '<' || IsAlpha(s[i]))
  {
    FirstChar(s, i, j, AbbrevText(name));
  }

  lemma MonthWeekTextAt(s: string, i: nat, j: nat, m: nat, n: nat, wd: nat)
    requires At(s, i, j, Dec(m) + ("." + (Dec(n) + ("." + Dec(wd)))))
    requires m <= 12 && n <= 5 && wd <= 6
    ensures MonthWeekAt(s, i, j, m, n, wd)
  {
    DecIsDecimal(n);
    DecIsDecimal(wd);
    Split(s, i, j, Dec(m), "." + (Dec(n) + ("." + Dec(wd))));
    var k := i + |Dec(m)|;
    SplitChar(s, k, j, '.', Dec(n) + ("." + Dec(wd)));
    Split(s, k + 1, j, Dec(n), "." + Dec(wd));
    var l := k + 1 + |Dec(n)|;
    SplitChar(s, l, j, '.', Dec(wd));
    DecAt(s, i, k, 2, m);
    DecAt(s, k + 1, l, 1, n);
    DecAt(s, l + 1, j, 1, wd);
  }

  lemma DayTextAt(s: string, i: nat, j: nat, r: Rule)
    requires RuleOk(r) && At(s, i, j, DayText(r)) && Stops(s, j, IsDigit)
    ensures DayAt(s, i, j, r.(time := 2 * Hour))
  {
    match r {
      case Julian(n, _) =>
        SplitChar(s, i, j, 'J', Dec(n));
        DecAt(s, i + 1, j, 3, n);
      case MonthWeek(m, n, wd, _) =>
        SplitChar(s, i, j, 'M', Dec(m) + ("." + (Dec(n) + ("." + Dec(wd)))));
        MonthWeekTextAt(s, i + 1, j, m, n, wd);
      case DayOfYear(n, _) =>
        DecAt(s, i, j, 3, n);
    }
  }

  predicate EndOrComma(s: string, i: nat) {
    i == |s| || Next(s, i, ',')
  }

  lemma RuleTextAt(s: string, i: nat, j: nat, r: Rule)
    requires RuleOk(r) && At(s, i, j, RuleText(r)) && EndOrComma(s, j)
    ensures DateAt(s, i, j, r)
  {
    Split(s, i, j, DayText(r), ClockText(r));
    RulePartsAt(s, i, i + |DayText(r)|, j, r);
  }

  lemma RulePartsAt(s: string, i: nat, k: nat, j: nat, r: Rule)
    requires RuleOk(r) && At(s, i, k, DayText(r)) && At(s, k, j, ClockText(r)) && EndOrComma(s, j)
    ensures DateAt(s, i, j, r)
  {
    ClockTextAt(s, k, j, r);
    DayTextAt(s, i, k, r);
    DateJoins(s, i, k, j, r.(time := 2 * Hour), r);
  }

  lemma DateJoins(s: string, i: nat, k: nat, j: nat, d: Rule, r: Rule)
    requires DayAt(s, i, k, d) && TimeOfDayAt(s, k, j, d, r)
    ensures DateAt(s, i, j, r)
  {
  }

  lemma ClockTextAt(s: string, i: nat, j: nat, r: Rule)
    requires RuleOk(r) && At(s, i, j, ClockText(r)) && EndOrComma(s, j)
    ensures TimeOfDayAt(s, i, j, r.(time := 2 * Hour), r) && Stops(s, i, IsDigit)
  {
    if r.time != 2 * Hour {
      SplitChar(s, i, j, '/', Hms(r.time));
      HmsAt(s, i + 1, j, r.time);
    }
  }

  // ---------------------------------------------------------------- fields

  predicate Starts(s: string, i: nat, f: Field) {
    i < |s| &&
    match f
    case Abbrev(_) => s[i] == '<' || IsAlpha(s[i])
    case Offset(_) => s[i] == '-' || IsDigit(s[i])
    case YearRule(_) => s[i] == ','
  }

  lemma FieldTextStarts(s: string, i: nat, j: nat, f: Field)
    requires At(s, i, j, FieldText(f)) && f != Abbrev("")
    ensures Starts(s, i, f)
  {
    match f {
      case Abbrev(name) => AbbrevTextStarts(s, i, j, name);
      case Offset(t) => OffsetTextStarts(s, i, j, -t);
      case YearRule(r) => SplitChar(s, i, j, ',', RuleText(r));
    }
  }

  /** The text of field `k` ends where the text of the next one begins. */
  predicate Separate(fields: seq<Field>, k: nat)
    requires k < |fields|
  {
    var last := k + 1 == |fields|;
    match fields[k]
    case Abbrev(name) => if last then name != "" else !fields[k + 1].Abbrev?
    case Offset(_) => last || fields[k + 1].YearRule? || (fields[k + 1].Abbrev? && fields[k + 1].name != "")
    case YearRule(_) => last || fields[k + 1].YearRule?
  }

  predicate AllSeparate(fields: seq<Field>) {
    forall k :: 0 <= k < |fields| ==> Separate(fields, k)
  }

  lemma SeparateTail(fields: seq<Field>)
    requires AllOk(fields) && AllSeparate(fields) && fields != []
    ensures AllOk(fields[1..]) && AllSeparate(fields[1..])
  {
    forall k | 0 <= k < |fields[1..]| ensures FieldOk(fields[1..][k]) && Separate(fields[1..], k) {
      assert Separate(fields, k + 1) && FieldOk(fields[k + 1]);
    }
  }

  lemma RestStarts(s: string, i: nat, rest: seq<Field>)
    requires At(s, i, |s|, FieldsText(rest))
    ensures if rest == [] then i == |s| else rest[0] == Abbrev("") || Starts(s, i, rest[0])
  {
    if rest == [] {
      assert |s[i..]| == 0;
    } else if rest[0] != Abbrev("") {
      TextStarts(s, i, rest[0], FieldsText(rest[1..]));
    }
  }

  lemma TextStarts(s: string, i: nat, f: Field, later: string)
    requires At(s, i, |s|, FieldText(f) + later) && f != Abbrev("")
    ensures Starts(s, i, f)
  {
    Split(s, i, |s|, FieldText(f), later);
    FieldTextStarts(s, i, i + |FieldText(f)|, f);
  }

  /** What the first field needs to see behind it. */
  predicate Delimited(s: string, j: nat, f: Field) {
    match f
    case Abbrev(name) => Stops(s, j, IsAlpha) && (name == "" ==> j < |s| && s[j] != '<')
    case Offset(_) => Stops(s, j, DigitOrColon)
    case YearRule(_) => EndOrComma(s, j)
  }

  lemma SeparateDelimits(s: string, j: nat, fields: seq<Field>)
    requires fields != [] && Separate(fields, 0) && At(s, j, |s|, FieldsText(fields[1..]))
    ensures Delimited(s, j, fields[0])
  {
    RestStarts(s, j, fields[1..]);
  }

  lemma FieldTextAt(s: string, i: nat, j: nat, f: Field)
    requires FieldOk(f) && At(s, i, j, FieldText(f)) && Delimited(s, j, f)
    ensures j in Ends(s, i, f)
  {
    match f {
      case Abbrev(name) => NameTextAt(s, i, j, name);
      case Offset(t) => OffsetTextAt(s, i, j, -t);
      case YearRule(r) => YearRuleTextAt(s, i, j, r);
    }
  }

  lemma YearRuleTextAt(s: string, i: nat, j: nat, r: Rule)
    requires RuleOk(r) && At(s, i, j, "," + RuleText(r)) && EndOrComma(s, j)
    ensures j in Ends(s, i, YearRule(r))
  {
    SplitChar(s, i, j, ',', RuleText(r));
    RuleTextAt(s, i + 1, j, r);
  }

  lemma NameTextAt(s: string, i: nat, j: nat, name: string)
    requires At(s, i, j, AbbrevText(name)) && '>' !in name
    requires Stops(s, j, IsAlpha) && (name == "" ==> j < |s| && s[j] != '<')
    ensures NameAt(s, i, j, name)
  {
    if name != "" {
      AbbrevTextStarts(s, i, j, name);
    }
    AbbrevTextAt(s, i, j, name);
  }

  predicate Proper(fields: seq<Field>)
    decreases |fields|
  {
    fields == [] || (FieldOk(fields[0]) && Separate(fields, 0) && Proper(fields[1..]))
  }

  lemma {:induction false} ProperFields(fields: seq<Field>)
    requires AllOk(fields) && AllSeparate(fields)
    ensures Proper(fields)
    decreases |fields|
  {
    if fields != [] {
      SeparateTail(fields);
      ProperFields(fields[1..]);
    }
  }

  lemma TextOfFields(fields: seq<Field>)
    requires fields != [] && Proper(fields)
    ensures FieldsText(fields) == FieldText(fields[0]) + FieldsText(fields[1..]) && Proper(fields[1..])
  {
  }

  lemma FieldInFront(s: string, i: nat, j: nat, fields: seq<Field>)
    requires fields != [] && j in Ends(s, i, fields[0]) && FieldsAt(s, j, fields[1..])
    ensures FieldsAt(s, i, fields)
  {
  }

  lemma HeadSplits(s: string, i: nat, fields: seq<Field>, head: string, later: string)
    requires At(s, i, |s|, FieldsText(fields)) && FieldsText(fields) == head + later
    ensures At(s, i, i + |head|, head) && At(s, i + |head|, |s|, later)
  {
    Split(s, i, |s|, head, later);
  }

  /** The text of fields that stay apart has these fields. */
  lemma {:induction false} FieldsTextAt(s: string, i: nat, fields: seq<Field>)
    requires Proper(fields) && At(s, i, |s|, FieldsText(fields))
    ensures FieldsAt(s, i, fields)
    decreases |fields|
  {
    if fields != [] {
      TextOfFields(fields);
      HeadSplits(s, i, fields, FieldText(fields[0]), FieldsText(fields[1..]));
      var j := i + |FieldText(fields[0])|;
      FirstFieldAt(s, i, j, fields);
      FieldsTextAt(s, j, fields[1..]);
      FieldInFront(s, i, j, fields);
    } else {
      NothingLeft(s, i);
    }
  }

  lemma NothingLeft(s: string, i: nat)
    requires At(s, i, |s|, "")
    ensures i == |s|
  {
    assert |s[i..]| == 0;
  }

  lemma FirstFieldAt(s: string, i: nat, j: nat, fields: seq<Field>)
    requires fields != [] && Proper(fields)
    requires At(s, i, j, FieldText(fields[0])) && At(s, j, |s|, FieldsText(fields[1..]))
    ensures j in Ends(s, i, fields[0])
  {
    SeparateDelimits(s, j, fields);
    FieldTextAt(s, i, j, fields[0]);
  }

  // ---------------------------------------------------------------- whole texts

  lemma FieldsMean(fields: seq<Field>)
    requires AllOk(fields) && AllSeparate(fields) && Assemble(fields).Some?
    ensures Means(FieldsText(fields), Assemble(fields).value)
  {
    var s := FieldsText(fields);
    assert s[0..|s|] == s;
    ProperFields(fields);
    FieldsTextAt(s, 0, fields);
  }

  lemma FieldsAreSeparate(z: PosixZone)
    requires Good(z)
    ensures AllOk(Fields(z)) && AllSeparate(Fields(z)) && Assemble(Fields(z)) == Some(z)
  {
    var f := Fields(z);
    assert z.dst == "" ==> f == [Abbrev(z.std), Offset(-z.offset)];
    assert z.dst != "" && z.start.Off? ==> f[if z.save == Hour then 3 else 4..] == [];
    assert z.dst != "" && !z.start.Off? ==>
        f[if z.save == Hour then 3 else 4..] == [YearRule(z.start), YearRule(z.end)];
  }

  /** The canonical text of a zone means the zone. */
  lemma NameMeans(z: PosixZone)
    requires Good(z)
    ensures Means(NameOf(z), z)
  {
    FieldsAreSeparate(z);
    FieldsMean(Fields(z));
  }

  // ---------------------------------------------------------------- a text has one meaning

  lemma NumberUnique(s: string, i: nat, limit: nat, j: nat, n: int, k: nat, m: int)
    requires NumberAt(s, i, j, limit, n) && NumberAt(s, i, k, limit, m)
    ensures j == k && n == m
  {
  }

  lemma {:induction false} ClockUnique(s: string, i: nat, unit: int, most: int, j: nat, t: int, k: nat, u: int)
    requires ClockAt(s, i, j, unit, most, t) && ClockAt(s, i, k, unit, most, u) && unit in {1, 60, 3600}
    ensures j == k && t == u
    decreases unit
  {
    var a: nat, n, x :| NumberAt(s, i, a, 2, n) && n <= most && ClockRestAt(s, a, j, unit, x) && t == n * unit + x;
    var b: nat, m, y :| NumberAt(s, i, b, 2, m) && m <= most && ClockRestAt(s, b, k, unit, y) && u == m * unit + y;
    NumberUnique(s, i, 2, a, n, b, m);
    if Next(s, a, ':') && unit > 1 {
      ClockUnique(s, a + 1, unit / 60, 59, j, x, k, y);
    }
  }

  lemma SignedTimeUnique(s: string, i: nat, j: nat, t: int, k: nat, u: int)
    requires SignedTimeAt(s, i, j, t) && SignedTimeAt(s, i, k, u)
    ensures j == k && t == u
  {
    if Next(s, i, '-') {
      ClockUnique(s, i + 1, Hour, 24, j, -t, k, -u);
    } else {
      ClockUnique(s, if Next(s, i, '+') then i + 1 else i, Hour, 24, j, t, k, u);
    }
  }

  lemma NameUnique(s: string, i: nat, j: nat, a: string, k: nat, b: string)
    requires NameAt(s, i, j, a) && NameAt(s, i, k, b)
    ensures j == k && a == b
  {
    if s[i] == '<' {
      QuotedNotShorter(s, i, j, a, k, b);
      QuotedNotShorter(s, i, k, b, j, a);
    } else {
      assert forall x :: i <= x < j ==> s[x] == a[x - i];
      assert forall x :: i <= x < k ==> s[x] == b[x - i];
    }
  }

  lemma QuotedNotShorter(s: string, i: nat, j: nat, a: string, k: nat, b: string)
    requires NameAt(s, i, j, a) && NameAt(s, i, k, b) && s[i] == '<'
    ensures j >= k
  {
    assert forall x :: i + 1 <= x < k - 1 ==> s[x] == b[x - i - 1];
  }

  lemma MonthWeekUnique(s: string, i: nat, j: nat, a: (int, int, int), k: nat, b: (int, int, int))
    requires MonthWeekAt(s, i, j, a.0, a.1, a.2) && MonthWeekAt(s, i, k, b.0, b.1, b.2)
    ensures j == k && a == b
  {
    var p: nat, q: nat :| NumberAt(s, i, p, 2, a.0) && NumberAt(s, p + 1, q, 1, a.1) && NumberAt(s, q + 1, j, 1, a.2);
    var v: nat, w: nat :| NumberAt(s, i, v, 2, b.0) && NumberAt(s, v + 1, w, 1, b.1) && NumberAt(s, w + 1, k, 1, b.2);
    NumberUnique(s, i, 2, p, a.0, v, b.0);
    NumberUnique(s, p + 1, 1, q, a.1, w, b.1);
    NumberUnique(s, q + 1, 1, j, a.2, k, b.2);
  }

  lemma DayUnique(s: string, i: nat, j: nat, a: Rule, k: nat, b: Rule)
    requires DayAt(s, i, j, a) && DayAt(s, i, k, b)
    ensures j == k && a == b
  {
    if Next(s, i, 'J') {
      NumberUnique(s, i + 1, 3, j, a.n, k, b.n);
    } else if Next(s, i, 'M') {
      MonthWeekUnique(s, i + 1, j, (a.month, a.week, a.weekday), k, (b.month, b.week, b.weekday));
    } else {
      NumberUnique(s, i, 3, j, a.n, k, b.n);
    }
  }

  lemma DateUnique(s: string, i: nat, j: nat, a: Rule, k: nat, b: Rule)
    requires DateAt(s, i, j, a) && DateAt(s, i, k, b)
    ensures j == k && a == b
  {
    var p: nat, d :| DayAt(s, i, p, d) && TimeOfDayAt(s, p, j, d, a);
    var q: nat, e :| DayAt(s, i, q, e) && TimeOfDayAt(s, q, k, e, b);
    DayUnique(s, i, p, d, q, e);
    if Next(s, p, '/') {
      ClockUnique(s, p + 1, Hour, 24, j, a.time, k, b.time);
    }
  }

  lemma FieldUnique(s: string, i: nat, j: nat, f: Field, k: nat, g: Field)
    requires j in Ends(s, i, f) && k in Ends(s, i, g) && (f.Abbrev? <==> g.Abbrev?)
    ensures j == k && f == g
  {
    match f {
      case Abbrev(a) => NameUnique(s, i, j, a, k, g.name);
      case Offset(t) =>
        OffsetHasNoComma(s, i, j, t);
        SignedTimeUnique(s, i, j, t, k, g.time);
      case YearRule(r) =>
        if g.Offset? {
          OffsetHasNoComma(s, i, k, g.time);
        } else {
          DateUnique(s, i + 1, j, r, k, g.rule);
        }
    }
  }

  lemma OffsetHasNoComma(s: string, i: nat, j: nat, t: int)
    requires SignedTimeAt(s, i, j, t)
    ensures i < |s| && s[i] != ','
  {
    if !Next(s, i, '-') && !Next(s, i, '+') {
      ClockStarts(s, i, j, Hour, 24, t);
    }
  }

  lemma ClockStarts(s: string, i: nat, j: nat, unit: int, most: int, t: int)
    requires ClockAt(s, i, j, unit, most, t)
    ensures i < |s| && IsDigit(s[i])
  {
  }

  lemma FieldIsNotEmpty(s: string, i: nat, j: nat, f: Field)
    requires j in Ends(s, i, f)
    ensures i < |s|
  {
    if f.Offset? {
      OffsetHasNoComma(s, i, j, f.time);
    }
  }

  lemma {:induction false} FieldsUnique(s: string, i: nat, f: seq<Field>, g: seq<Field>)
    requires FieldsAt(s, i, f) && FieldsAt(s, i, g)
    requires forall k :: 0 <= k < |f| && k < |g| ==> (f[k].Abbrev? <==> g[k].Abbrev?)
    ensures f == g
    decreases |f|
  {
    if f != [] && g != [] {
      var j := FirstUnique(s, i, f, g);
      FieldsUnique(s, j, f[1..], g[1..]);
      assert f == [f[0]] + f[1..] && g == [g[0]] + g[1..];
    } else {
      EndIsEnd(s, i, f);
      EndIsEnd(s, i, g);
    }
  }

  lemma FirstUnique(s: string, i: nat, f: seq<Field>, g: seq<Field>) returns (j: nat)
    requires FieldsAt(s, i, f) && FieldsAt(s, i, g) && f != [] && g != [] && (f[0].Abbrev? <==> g[0].Abbrev?)
    ensures f[0] == g[0] && FieldsAt(s, j, f[1..]) && FieldsAt(s, j, g[1..])
  {
    j :| j in Ends(s, i, f[0]) && FieldsAt(s, j, f[1..]);
    var k :| k in Ends(s, i, g[0]) && FieldsAt(s, k, g[1..]);
    FieldUnique(s, i, j, f[0], k, g[0]);
  }

  lemma EndIsEnd(s: string, i: nat, f: seq<Field>)
    requires FieldsAt(s, i, f)
    ensures if f == [] then i == |s| else i < |s|
  {
    if f != [] {
      var j :| j in Ends(s, i, f[0]) && FieldsAt(s, j, f[1..]);
      FieldIsNotEmpty(s, i, j, f[0]);
    }
  }

  /** The language is unambiguous. */
  lemma MeaningIsUnique(s: string, y: PosixZone, z: PosixZone)
    requires Means(s, y) && Means(s, z)
    ensures y == z
  {
    var f :| FieldsAt(s, 0, f) && Assemble(f) == Some(y);
    var g :| FieldsAt(s, 0, g) && Assemble(g) == Some(z);
    AbbrevsInPlace(f);
    AbbrevsInPlace(g);
    FieldsUnique(s, 0, f, g);
  }

  lemma AbbrevsInPlace(f: seq<Field>)
    requires Assemble(f).Some?
    ensures forall k :: 0 <= k < |f| ==> (f[k].Abbrev? <==> k == 0 || k == 2)
  {
    var n := if |f| > 3 && f[3].Offset? then 4 else 3;
    forall k | 0 <= k < |f| ensures f[k].Abbrev? <==> k == 0 || k == 2 {
      if k >= n {
        assert f[k] == f[n..][k - n];
      }
    }
  }

  /** Every text with a meaning has a canonical one, which has that meaning and no other. Texts have
      the same meaning exactly when they have the same canonical text. */
  lemma CanonicalText(s: string, z: PosixZone, t: string, w: PosixZone)
    requires Means(s, z) && Means(t, w)
    ensures Means(NameOf(z), z)
    ensures NameOf(z) == NameOf(w) <==> z == w
  {
    MeaningIsGood(s, z);
    MeaningIsGood(t, w);
    NameMeans(z);
    NameMeans(w);
    if NameOf(z) == NameOf(w) {
      MeaningIsUnique(NameOf(z), z, w);
    }
  }

  /** Without rules, a standard abbreviation in front of a daylight one makes no difference. */
  lemma StandardNameIgnored(std: string, z: PosixZone)
    requires Good(z) && z.start.Off? && z.dst != "" && '>' !in std
    ensures Means(FieldsText([Abbrev(std)] + Fields(z)[1..]), z)
  {
    var f := [Abbrev(std), Offset(-z.offset), Abbrev(z.dst)];
    if z.save == Hour {
      assert [Abbrev(std)] + Fields(z)[1..] == f;
      FieldsMean(f);
    } else {
      var g := f + [Offset(-(z.offset + z.save))];
      assert [Abbrev(std)] + Fields(z)[1..] == g;
      assert g[4..] == [];
      FieldsMean(g);
    }
  }

  /** Neither does stating a daylight offset of one hour. */
  lemma StatedHourIgnored(z: PosixZone)
    requires Good(z) && z.start.Off? && z.dst != "" && z.save == Hour && GoodTime(z.offset + Hour)
    ensures Means(FieldsText(Fields(z) + [Offset(-z.offset - Hour)]), z)
  {
    var f := [Abbrev(""), Offset(-z.offset), Abbrev(z.dst), Offset(-z.offset - Hour)];
    assert f == Fields(z) + [Offset(-z.offset - Hour)];
    assert f[4..] == [];
    FieldsMean(f);
  }
}
