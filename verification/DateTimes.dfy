/** Texts of the date-time rule, and which of them the server can read as times. */
module DateTimes {
  import opened Wrappers
  import opened Strings
  import opened Calendar
  import opened Timestamps
  import opened Abnf
  import opened Rfc3986
  import opened Iso8601
  import opened Languages

  predicate IsNumber(s: string, n: nat) { |s| == n && forall c <- s :: IsDigit(c) }

  /** A date-time cut into its fields; the fraction with its point, if there is one. */
  datatype DateTimeFields = DateTimeFields(year: string, month: string, day: string, hour: string, minute: string,
                                           second: string, fraction: string, zone: string)

  predicate IsFraction(s: string) { s == "" || (|s| > 1 && s[0] == '.' && forall c <- s[1..] :: IsDigit(c)) }

  predicate IsZone(s: string) {
    s == "Z" || (|s| == 6 && (s[0] == '+' || s[0] == '-') && IsNumber(s[1..3], 2) && s[3] == ':' && IsNumber(s[4..], 2))
  }

  predicate HasShape(f: DateTimeFields) {
    && IsNumber(f.year, 4) && IsNumber(f.month, 2) && IsNumber(f.day, 2)
    && IsNumber(f.hour, 2) && IsNumber(f.minute, 2) && IsNumber(f.second, 2)
    && IsFraction(f.fraction) && IsZone(f.zone)
  }

  function DateText(f: DateTimeFields): string { f.year + ("-" + (f.month + ("-" + f.day))) }
  function ClockText(f: DateTimeFields): string { f.hour + (":" + (f.minute + (":" + (f.second + f.fraction)))) }
  function FieldsText(f: DateTimeFields): string { DateText(f) + ("T" + (ClockText(f) + f.zone)) }

  // ------------------------------------------------- from a derivation to fields

  /** DateTimeFields of digits and single characters, one after the other. */
  lemma NumberElim(n: nat, rest: Rule, s: string) returns (number: string, tail: string)
    requires Means(Cat(Digits(n), rest), s, [])
    ensures s == number + tail && IsNumber(number, n) && Means(rest, tail, [])
  {
    var c1, c2;
    number, c1, tail, c2 := CatElim(Digits(n), rest, s, []);
    DigitsMean(n, number);
  }

  lemma LastNumber(n: nat, s: string)
    requires Means(Digits(n), s, [])
    ensures IsNumber(s, n)
  {
    DigitsMean(n, s);
  }

  lemma DateElim(s: string) returns (year: string, month: string, day: string)
    requires Means(FullDate(), s, [])
    ensures s == year + ("-" + (month + ("-" + day))) && IsNumber(year, 4) && IsNumber(month, 2) && IsNumber(day, 2)
  {
    var s1, s2;
    year, s1 := NumberElim(4, Cat(Char('-'), Cat(Digits(2), Cat(Char('-'), Digits(2)))), s);
    s1 := LiteralFirst(Char('-'), Cat(Digits(2), Cat(Char('-'), Digits(2))), s1, []);
    month, s2 := NumberElim(2, Cat(Char('-'), Digits(2)), s1);
    day := LiteralFirst(Char('-'), Digits(2), s2, []);
    LastNumber(2, day);
  }

  lemma FractionElim(s: string)
    requires Means(Optional(TimeSecfrac()), s, [])
    ensures IsFraction(s)
  {
    OptionalMeans(TimeSecfrac(), s, []);
    if s != "" {
      var digits := LiteralFirst(Char('.'), Plus(Digit()), s, []);
      ClassRepeat(Digit(), 1, None, digits);
      assert s[1..] == digits;
    }
  }

  lemma ClockElim(s: string) returns (hour: string, minute: string, second: string, fraction: string)
    requires Means(PartialTime(), s, [])
    ensures s == hour + (":" + (minute + (":" + (second + fraction))))
    ensures IsNumber(hour, 2) && IsNumber(minute, 2) && IsNumber(second, 2) && IsFraction(fraction)
  {
    var seconds := Cat(Digits(2), Optional(TimeSecfrac()));
    var s1, s2;
    hour, s1 := NumberElim(2, Cat(Char(':'), Cat(Digits(2), Cat(Char(':'), seconds))), s);
    s1 := LiteralFirst(Char(':'), Cat(Digits(2), Cat(Char(':'), seconds)), s1, []);
    minute, s2 := NumberElim(2, Cat(Char(':'), seconds), s1);
    s2 := LiteralFirst(Char(':'), seconds, s2, []);
    second, fraction := NumberElim(2, Optional(TimeSecfrac()), s2);
    FractionElim(fraction);
  }

  lemma OffsetElim(s: string)
    requires Means(TimeNumOffset(), s, [])
    ensures IsZone(s)
  {
    var rest := Cat(Digits(2), Cat(Char(':'), Digits(2)));
    SignFirst(rest, s);
    var hour, s1 := NumberElim(2, Cat(Char(':'), Digits(2)), s[1..]);
    var minute := LiteralFirst(Char(':'), Digits(2), s1, []);
    LastNumber(2, minute);
    ZonePlaces(s, hour, minute);
  }

  lemma SignFirst(rest: Rule, s: string)
    requires Keyless(rest) && Means(Cat(Alt(Char('+'), Char('-')), rest), s, [])
    ensures s != "" && (s[0] == '+' || s[0] == '-') && Means(rest, s[1..], [])
  {
    FirstThen(Alt(Char('+'), Char('-')), rest, s);
  }

  lemma ZonePlaces(s: string, hour: string, minute: string)
    requires s != "" && s[1..] == hour + (":" + minute) && IsNumber(hour, 2) && IsNumber(minute, 2)
    ensures |s| == 6 && s[1..3] == hour && s[3] == ':' && s[4..] == minute
  {
  }

  lemma ZoneElim(s: string)
    requires Means(TimeOffset(), s, [])
    ensures IsZone(s)
  {
    EitherMeans(Char('Z'), TimeNumOffset(), s, []);
    if Means(TimeNumOffset(), s, []) {
      OffsetElim(s);
    } else {
      ClassMeans(Char('Z'), s, []);
      assert s == [s[0]];
    }
  }

  lemma KeylessMeans(r: Rule, s: string)
    requires Keyless(r) && InLanguage(r, s)
    ensures Means(r, s, [])
  {
    var c :| Means(r, s, c);
    KeylessSound(r, s, c);
  }

  lemma KeylessElim(a: Rule, b: Rule, s: string) returns (s1: string, s2: string)
    requires Means(Cat(a, b), s, [])
    ensures s == s1 + s2 && Means(a, s1, []) && Means(b, s2, [])
  {
    var c1, c2;
    s1, c1, s2, c2 := CatElim(a, b, s, []);
    NoParts(c1, c2);
  }

  /** Every text of the rule is cut into fields in one way: their places are fixed. */
  lemma DateTimeElim(s: string) returns (f: DateTimeFields)
    requires InLanguage(DateTime(), s)
    ensures HasShape(f) && s == FieldsText(f)
  {
    PlainDateTime();
    KeylessMeans(DateTime(), s);
    var date, rest := KeylessElim(FullDate(), Cat(Char('T'), FullTime()), s);
    var year, month, day := DateElim(date);
    var time := LiteralFirst(Char('T'), FullTime(), rest, []);
    var clock, zone := KeylessElim(PartialTime(), TimeOffset(), time);
    var hour, minute, second, fraction := ClockElim(clock);
    ZoneElim(zone);
    f := DateTimeFields(year, month, day, hour, minute, second, fraction, zone);
  }

  // ------------------------------------------------- from fields to a derivation

  lemma SecondsOrFraction(second: string, fraction: string)
    requires IsNumber(second, 2) && IsFraction(fraction)
    ensures Means(Cat(Digits(2), Optional(TimeSecfrac())), second + fraction, [])
  {
    if fraction == "" {
      DigitsMean(2, second);
      OptionalMeans(TimeSecfrac(), "", []);
      JoinEmptyCaptures(Digits(2), Optional(TimeSecfrac()), second, "");
    } else {
      SecondsIntro(second, fraction[1..]);
      assert "." + fraction[1..] == fraction;
    }
  }

  lemma ZoneIntro(zone: string)
    requires IsZone(zone)
    ensures Means(TimeOffset(), zone, [])
  {
    EitherMeans(Char('Z'), TimeNumOffset(), zone, []);
    if zone != "Z" {
      OffsetIntro(zone);
    } else {
      ClassMeans(Char('Z'), zone, []);
    }
  }

  lemma HourAndMinute(hour: string, minute: string)
    requires IsNumber(hour, 2) && IsNumber(minute, 2)
    ensures Means(Cat(Digits(2), Cat(Char(':'), Digits(2))), hour + (":" + minute), [])
  {
    DigitsMean(2, hour);
    DigitsMean(2, minute);
    LiteralFirstIntro(Char(':'), Digits(2), minute, []);
    JoinEmptyCaptures(Digits(2), Cat(Char(':'), Digits(2)), hour, ":" + minute);
  }

  lemma SignedIntro(rest: Rule, s: string, tail: string)
    requires Keyless(rest) && s != "" && (s[0] == '+' || s[0] == '-') && s[1..] == tail && Means(rest, tail, [])
    ensures Means(Cat(Alt(Char('+'), Char('-')), rest), s, [])
  {
    FirstThen(Alt(Char('+'), Char('-')), rest, s);
  }

  lemma ZoneCut(zone: string)
    requires IsZone(zone) && zone != "Z"
    ensures zone[1..] == zone[1..3] + (":" + zone[4..])
  {
  }

  lemma OffsetIntro(zone: string)
    requires IsZone(zone) && zone != "Z"
    ensures Means(TimeNumOffset(), zone, [])
  {
    HourAndMinute(zone[1..3], zone[4..]);
    ZoneCut(zone);
    SignedIntro(Cat(Digits(2), Cat(Char(':'), Digits(2))), zone, zone[1..3] + (":" + zone[4..]));
  }

  lemma FullTimeIntro(clock: Rule, offset: Rule, s: string, zone: string)
    requires Means(clock, s, []) && Means(offset, zone, [])
    ensures Means(Cat(Char('T'), Cat(clock, offset)), "T" + (s + zone), [])
  {
    JoinEmptyCaptures(clock, offset, s, zone);
    LiteralFirstIntro(Char('T'), Cat(clock, offset), s + zone, []);
  }

  lemma FieldsIntro(f: DateTimeFields)
    requires HasShape(f)
    ensures Means(DateTime(), FieldsText(f), [])
  {
    FullDateIntro(f.year, f.month, f.day);
    SecondsOrFraction(f.second, f.fraction);
    PartialTimeIntro(f.hour, f.minute, f.second + f.fraction);
    ZoneIntro(f.zone);
    FullTimeIntro(PartialTime(), TimeOffset(), ClockText(f), f.zone);
    JoinEmptyCaptures(FullDate(), Cat(Char('T'), FullTime()), DateText(f), "T" + (ClockText(f) + f.zone));
  }

  // ------------------------------------------------- reading the fields

  lemma {:induction false} PadNumber(s: string)
    requires forall c <- s :: IsDigit(c)
    ensures Number(s).Some? && Number(s).value < Power10(|s|) && Pad(Number(s).value, |s|) == s
  {
    if s != "" {
      var before, last := s[..|s| - 1], s[|s| - 1];
      PadNumber(before);
      assert IsDigit(last) && s == before + [last];
      var n := Number(before).value;
      assert (10 * n + DigitValue(last)) / 10 == n && (10 * n + DigitValue(last)) % 10 == DigitValue(last);
      assert DigitChar(DigitValue(last)) == last;
    }
  }

  /** The number a field of digits denotes. */
  function Value(s: string): nat {
    match Number(s) case Some(n) => n case None => 0
  }

  lemma FieldValue(s: string, n: nat)
    requires IsNumber(s, n)
    ensures Value(s) < Power10(n) && Pad(Value(s), n) == s
  {
    PadNumber(s);
  }

  lemma {:induction false} DigitRunOf(digits: string, rest: string)
    requires (forall c <- digits :: IsDigit(c)) && rest != "" && !IsDigit(rest[0])
    ensures DigitRun(digits + rest) == |digits|
  {
    if digits == "" {
      assert digits + rest == rest;
    } else {
      DigitRunOf(digits[1..], rest);
      assert (digits + rest)[1..] == digits[1..] + rest && IsDigit((digits + rest)[0]);
    }
  }

  /** The nanoseconds the parser makes of a fraction. */
  function FractionOf(fraction: string): nat { if fraction == "" then 0 else FractionNanos(fraction[1..]) }

  /** The parser takes the fraction and leaves the zone. */
  lemma FractionTaken(fraction: string, zone: string)
    requires IsFraction(fraction) && IsZone(zone)
    ensures TakeFraction(fraction + zone) == (FractionOf(fraction), zone)
  {
    if fraction == "" {
      assert fraction + zone == zone;
    } else {
      var digits := fraction[1..];
      DigitRunOf(digits, zone);
      assert (fraction + zone)[1..] == digits + zone && digits[0] in digits && (fraction + zone)[1] == digits[0];
      assert (digits + zone)[..|digits|] == digits && (digits + zone)[|digits|..] == zone;
    }
  }

  /** The minutes of hours and minutes behind a sign. */
  function ZoneOf(zone: string): int {
    if |zone| != 6 then 0
    else if zone[0] == '+' then 60 * Value(zone[1..3]) + Value(zone[4..])
    else -((60 * Value(zone[1..3]) + Value(zone[4..])) as int)
  }

  lemma ZoneTaken(zone: string)
    requires IsZone(zone)
    ensures TakeZone(zone) == Some(ZoneOf(zone))
  {
    if zone != "Z" {
      var hour, minute := zone[1..3], zone[4..];
      FieldValue(hour, 2);
      FieldValue(minute, 2);
      var v := [Value(hour), Value(minute)];
      HoursMinutesFit(Value(hour), Value(minute));
      LayoutRoundTrip(HOURS_MINUTES, v, "");
      ZoneDigits(v, hour, minute);
      assert zone[1..] == hour + (":" + minute) && zone[1..] + "" == zone[1..];
    }
  }

  lemma ZoneDigits(v: seq<nat>, hour: string, minute: string)
    requires |v| == 2 && Pad(v[0], 2) == hour && Pad(v[1], 2) == minute
    ensures PrintLayout(HOURS_MINUTES, v) == hour + (":" + minute)
  {
    assert HOURS_MINUTES[1..] == [Lit(':'), Num(2)] && HOURS_MINUTES[1..][1..] == [Num(2)]
        && HOURS_MINUTES[1..][1..][1..] == [];
    assert v[1..] == [v[1]] && v[1..][1..] == [];
    assert PrintLayout([Num(2)], [v[1]]) == Pad(v[1], 2) + PrintLayout([], []);
    assert minute + "" == minute;
  }

  lemma TextAsLayout(f: DateTimeFields)
    requires HasShape(f)
    ensures FieldsText(f)
         == f.year + (("-" + (f.month + ("-" + (f.day + ("T" + (f.hour + (":" + (f.minute + (":" + f.second)))))))))
                                 + (f.fraction + f.zone))
  {
  }

  lemma FieldsTaken(f: DateTimeFields)
    requires HasShape(f)
    ensures TakeLayout(YEAR + AFTER_YEAR, FieldsText(f))
         == Some(([Value(f.year)] + Five(Value(f.month), Value(f.day), Value(f.hour), Value(f.minute), Value(f.second)),
                  f.fraction + f.zone))
  {
    var m, d, h, i, s := Value(f.month), Value(f.day), Value(f.hour), Value(f.minute), Value(f.second);
    Powers();
    FieldValue(f.year, 4);
    FieldValue(f.month, 2);
    FieldValue(f.day, 2);
    FieldValue(f.hour, 2);
    FieldValue(f.minute, 2);
    FieldValue(f.second, 2);
    FiveFit(m, d, h, i, s);
    StampText(m, d, h, i, s);
    YearFirst(Value(f.year), Five(m, d, h, i, s), f.fraction + f.zone);
    TextAsLayout(f);
  }

  lemma Places(f: DateTimeFields)
    requires HasShape(f)
    ensures var s := FieldsText(f);
            && |s| >= 19 && s[..4] == f.year && s[5..7] == f.month && s[8..10] == f.day
            && s[11..13] == f.hour && s[14..16] == f.minute && s[17..19] == f.second
  {
  }
}
