/** From the text of a zone to correct conversions in it. */
module TzZone {
  import opened Civil
  import opened TimeZone
  import opened TzRuleForm
  import opened TzRule
  import opened TzText

  predicate SpacedZone(z: PosixZone, o: Order) {
    && InRange(z.start) && InRange(z.end) && !z.start.Off? && !z.end.Off?
    && forall leap :: Spaced(o, z.offset, z.save, z.start, z.end, leap)
  }

  function Converter(z: PosixZone): Zone
    requires InRange(z.start) && InRange(z.end)
  {
    ZoneOf(z.std, z.dst, z.offset, z.save, z.start, z.end)
  }

  /** The zone that a text means keeps local time and UTC apart correctly, with rules of any kind, when
      these keep their distance from the ends of the year and from each other. */
  lemma TextConverts(s: string, z: PosixZone, o: Order, tp: int, c: Choose)
    requires Means(s, z) && SpacedZone(z, o)
    ensures var zone := Converter(z);
            && Tells(InfoOf(zone), tp, GetLocalInfo(zone, tp))
            && RightChoice(InfoOf(zone), tp, c, ToSysChoosing(zone, tp, c))
            && Brackets(GetInfo(zone, tp), tp)
  {
    var zone := Converter(z);
    SpacedSeparate(z.std, z.dst, z.offset, z.save, z.start, z.end, o);
    LocalInfoTells(zone, o, tp);
    ToSysChoosingIsRight(zone, o, tp, c);
    SeparatedAlternates(zone, o);
    GetInfoBracketsIff(zone, o);
  }

  predicate MonthRule(r: Rule) {
    r.MonthWeek? && 2 <= r.month <= 11
  }

  /** No text with two such rules can state offsets that would bring them too close to each other. */
  lemma MonthTextIsSpaced(s: string, z: PosixZone)
    requires Means(s, z) && MonthRule(z.start) && MonthRule(z.end) && MonthBetween(z.start.month, z.end.month)
    ensures SpacedZone(z, if z.start.month < z.end.month then Northern else Southern)
  {
    MeaningIsGood(s, z);
    var o := if z.start.month < z.end.month then Northern else Southern;
    forall leap ensures Spaced(o, z.offset, z.save, z.start, z.end, leap) {
      MonthRulesAreSpaced(z.offset, z.save, z.start, z.end, leap);
    }
  }

  // ---------------------------------------------------------------- a text whose zone goes wrong

  /** Daylight time of the southern kind, which ends at midnight of New Year, ten hours ahead of UTC. */
  const NewYearZone := PosixZone("AAA", "BBB", 36000, 3600, Julian(300, 7200), Julian(1, 0))

  lemma SmallNumbers()
    ensures Dec(0) == "0" && Dec(1) == "1" && Dec(10) == "10" && Dec(300) == "300"
  {
    assert Dec(3) == "3" && Dec(30) == "30";
  }

  lemma NewYearTexts()
    ensures OffsetText(36000) == "-10"
    ensures RuleText(Julian(300, 7200)) == "J300" && RuleText(Julian(1, 0)) == "J1/0"
  {
    SmallNumbers();
    assert Hms(36000) == "10" && Hms(0) == "0";
  }

  lemma FiveFields(a: Field, b: Field, c: Field, d: Field, e: Field)
    ensures FieldsText([a, b, c, d, e])
         == FieldText(a) + (FieldText(b) + (FieldText(c) + (FieldText(d) + FieldText(e))))
  {
    assert [e][1..] == [] && [d, e][1..] == [e] && [c, d, e][1..] == [d, e];
    assert [b, c, d, e][1..] == [c, d, e] && [a, b, c, d, e][1..] == [b, c, d, e];
    assert FieldsText([e]) == FieldText(e);
    assert FieldsText([c, d, e]) == FieldText(c) + (FieldText(d) + FieldText(e));
  }

  lemma NewYearFields()
    ensures Fields(NewYearZone)
         == [Abbrev("AAA"), Offset(-36000), Abbrev("BBB"), YearRule(Julian(300, 7200)), YearRule(Julian(1, 0))]
  {
  }

  lemma NewYearName()
    ensures NameOf(NewYearZone) == "AAA-10BBB,J300,J1/0"
  {
    NewYearFields();
    NewYearTexts();
    FiveFields(Abbrev("AAA"), Offset(-36000), Abbrev("BBB"), YearRule(Julian(300, 7200)), YearRule(Julian(1, 0)));
  }

  lemma NewYearAlternates()
    ensures Alternates(Converter(NewYearZone), Southern)
  {
    GregorianIsOrderly();
    var z := Converter(NewYearZone);
    forall y ensures YearAlternates(z, Southern, y) {
      YearLength(y);
    }
  }

  lemma NewYearMisses()
    ensures !Brackets(GetInfo(Converter(NewYearZone), -1), -1)
  {
    NewYearAlternates();
    var z := Converter(NewYearZone);
    YearOfUnique(-1, 1969);
    assert YearAlternates(z, Southern, 1969) && YearAlternates(z, Southern, 1970);
    NotInYear(z, 1970, -1);
  }

  /** A text that is accepted although the search for a period misses in its zone: at the end of 1969 in
      UTC, standard time has begun, and the period found is that of daylight time. */
  lemma AcceptedTextMisses()
    ensures Means("AAA-10BBB,J300,J1/0", NewYearZone)
    ensures Alternates(Converter(NewYearZone), Southern)
    ensures !Brackets(GetInfo(Converter(NewYearZone), -1), -1)
  {
    NewYearName();
    NameMeans(NewYearZone);
    NewYearAlternates();
    NewYearMisses();
  }
}
