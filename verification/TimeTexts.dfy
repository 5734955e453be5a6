/** The times the server reads and prints, digit by digit: which number stands where in a text, and what
    moment it stands for. */
module TimeTexts {
  import opened Wrappers
  import opened Strings
  import opened Calendar
  import opened Timestamps
  import opened Abnf
  import opened Iso8601
  import opened Languages
  import opened DateTimes

  function DigitAt(s: string, i: nat): int
    requires i < |s|
  {
    s[i] as int - '0' as int
  }

  /** The number of two digits. */
  function Two(s: string, i: nat): int
    requires i + 2 <= |s|
  {
    10 * DigitAt(s, i) + DigitAt(s, i + 1)
  }

  function Four(s: string, i: nat): int
    requires i + 4 <= |s|
  {
    100 * Two(s, i) + Two(s, i + 2)
  }

  /** `yyyy-mm-ddThh:mm:ss`, and anything behind it. */
  predicate IsStamp(s: string) {
    && |s| >= 19 && s[4] == s[7] == '-' && s[10] == 'T' && s[13] == s[16] == ':'
    && IsNumber(s[..4], 4) && IsNumber(s[5..7], 2) && IsNumber(s[8..10], 2)
    && IsNumber(s[11..13], 2) && IsNumber(s[14..16], 2) && IsNumber(s[17..19], 2)
  }

  /** The date exists, and the hours, minutes and seconds are in range. */
  predicate StampInRange(s: string) {
    && |s| >= 19 && Two(s, 5) >= 0 && Two(s, 8) >= 0 && IsDate(Date(Four(s, 0), Two(s, 5), Two(s, 8)))
    && Two(s, 11) < 24 && Two(s, 14) < 60 && Two(s, 17) < 60
  }

  /** The seconds since 0000-01-01T00:00:00 of the date and the clock of the stamp. */
  function StampSeconds(s: string): int
    requires StampInRange(s)
  {
    86_400 * DayNumber(Date(Four(s, 0), Two(s, 5), Two(s, 8))) + 3_600 * Two(s, 11) + 60 * Two(s, 14) + Two(s, 17)
  }

  /** The minutes a zone is ahead of UTC. */
  function ZoneMinutes(zone: string): int {
    if |zone| != 6 then 0
    else if zone[0] == '+' then 60 * Two(zone, 1) + Two(zone, 4)
    else -(60 * Two(zone, 1) + Two(zone, 4))
  }

  /** The digits of a fraction behind its point as nanoseconds, rounded down. */
  function FractionValue(fraction: string): int {
    if fraction == "" then 0 else Value(fraction[1..]) * 1_000_000_000 / Power10(|fraction| - 1)
  }

  /** The zone a date-time ends in. */
  function ZonePart(s: string): string
    requires |s| >= 20
  {
    if s[|s| - 1] == 'Z' then "Z" else s[|s| - 6..]
  }

  /** What stands between the seconds and the zone. */
  function FractionPart(s: string): string
    requires |s| >= 20 && (s[|s| - 1] == 'Z' || |s| >= 25)
  {
    s[19..|s| - |ZonePart(s)|]
  }

  /** A date-time by its characters: a stamp, a point and digits or nothing, and a zone. */
  predicate IsDateTime(s: string) {
    && IsStamp(s) && |s| >= 20 && (s[|s| - 1] == 'Z' || |s| >= 25)
    && IsZone(ZonePart(s)) && IsFraction(FractionPart(s))
  }

  /** The moment of the seconds of a stamp, a fraction and a zone. */
  function MomentOf(secs: int, fraction: string, zone: string): Timestamp {
    Timestamp((secs - 60 * ZoneMinutes(zone)) * 1_000_000_000 + FractionValue(fraction), ZoneMinutes(zone))
  }

  /** The moment a date-time stands for, and the minutes of its zone. */
  function Moment(s: string): Timestamp
    requires IsDateTime(s) && StampInRange(s)
  {
    MomentOf(StampSeconds(s), FractionPart(s), ZonePart(s))
  }

  // ------------------------------------------------- numbers

  lemma ValueTwo(s: string)
    requires IsNumber(s, 2)
    ensures Value(s) == Two(s, 0)
  {
    assert s[..1][..0] == "" && s[..1][0] == s[0];
    assert Number(s[..1][..0]) == Some(0);
    assert Number(s[..1]) == Some(DigitValue(s[0]));
  }

  lemma ValueFour(s: string)
    requires IsNumber(s, 4)
    ensures Value(s) == Four(s, 0)
  {
    ValueTwo(s[..2]);
    assert s[..3][..2] == s[..2] && s[..3][2] == s[2] && s[..2][0] == s[0] && s[..2][1] == s[1];
    PadNumber(s[..2]);
    assert Number(s[..3]) == Some(10 * Two(s, 0) + DigitValue(s[2]));
  }

  lemma TwoOf(s: string, i: nat)
    requires i + 2 <= |s| && IsNumber(s[i..i + 2], 2)
    ensures Two(s, i) == Value(s[i..i + 2])
  {
    ValueTwo(s[i..i + 2]);
  }

  lemma ValueLast(s: string, before: string, last: char)
    requires s == before + [last] && IsDigit(last) && Number(before).Some?
    ensures Number(s).Some? && Value(s) == 10 * Value(before) + DigitValue(last)
  {
    assert s[..|s| - 1] == before;
  }

  lemma {:induction false} SomeNumber(digits: string)
    requires forall c <- digits :: IsDigit(c)
    ensures Number(digits).Some?
  {
    if digits != "" {
      SomeNumber(digits[..|digits| - 1]);
    }
  }

  lemma {:induction false} ValueConcat(a: string, b: string)
    requires (forall c <- a :: IsDigit(c)) && forall c <- b :: IsDigit(c)
    ensures Value(a + b) == Value(a) * Power10(|b|) + Value(b)
  {
    if b == "" {
      assert a + b == a;
    } else {
      var before, last := b[..|b| - 1], b[|b| - 1];
      assert last in b;
      ValueConcat(a, before);
      SomeNumber(before);
      SomeNumber(a + before);
      ValueLast(b, before, last);
      ValueLast(a + b, a + before, last);
      OneMoreDigit(Value(a + before), Value(a), Power10(|before|), Value(before), DigitValue(last));
    }
  }

  lemma OneMoreDigit(whole: int, a: int, p: nat, b: int, digit: int)
    requires whole == a * p + b
    ensures 10 * whole + digit == a * (10 * p) + (10 * b + digit)
  {
  }

  lemma Scaled(a: nat, p: nat)
    ensures 10 * (a * p) == a * (10 * p)
  {
  }

  // ------------------------------------------------- fractions and zones

  lemma {:induction false} PowerSum(a: nat, b: nat)
    ensures Power10(a + b) == Power10(a) * Power10(b)
  {
    if a > 0 {
      PowerSum(a - 1, b);
      Scaled(Power10(b), Power10(a - 1));
    }
  }

  lemma AtLeast(k: int, d: int)
    requires k >= 1 && d > 0
    ensures k * d >= d
  {
  }

  lemma NoMultiple(k: int, d: int)
    requires -d < k * d < d
    ensures k == 0
  {
    if k >= 1 {
      AtLeast(k, d);
    } else if k <= -1 {
      AtLeast(-k, d);
    }
  }

  lemma Difference(e: int, q: int, d: int)
    ensures (e - q) * d == e * d - q * d
  {
  }

  lemma Quotient(n: int, d: int, q: int, r: int)
    requires 0 <= r < d && n == q * d + r
    ensures n / d == q
  {
    var e, m := n / d, n % d;
    assert n == e * d + m;
    Difference(e, q, d);
    NoMultiple(e - q, d);
  }

  /** A factor of both sides of a division, with a remainder in front of it. */
  lemma CommonFactor(v: nat, p: nat, q: nat)
    requires p > 0 && q > 0
    ensures p * q > 0 && v * p / (p * q) == v / q
  {
    var a, r := v / q, v % q;
    assert v == a * q + r;
    assert v * p == a * (p * q) + r * p;
    assert 0 <= r * p < p * q;
    Quotient(v * p, p * q, a, r * p);
  }

  lemma Billion()
    ensures Power10(9) == 1_000_000_000
  {
    PowerSum(6, 3);
    Powers();
  }

  /** Digits that fill no more than nine places. */
  lemma FewDigits(v: nat, k: nat)
    requires k <= 9
    ensures v * 1_000_000_000 / Power10(k) == v * Power10(9 - k)
  {
    Billion();
    PowerSum(9 - k, k);
    Quotient(v * 1_000_000_000, Power10(k), v * Power10(9 - k), 0);
  }

  /** Digits that fill more: those behind the ninth are lost. */
  lemma ManyDigits(v: nat, first: nat, rest: nat, k: nat)
    requires rest < Power10(k) && v == first * Power10(k) + rest
    ensures v * 1_000_000_000 / Power10(9 + k) == first
  {
    Billion();
    PowerSum(9, k);
    CommonFactor(v, 1_000_000_000, Power10(k));
    Quotient(v, Power10(k), first, rest);
  }

  lemma NineDigits(digits: string)
    requires |digits| > 9 && Number(digits[..9]).Some?
    ensures FractionNanos(digits) == Value(digits[..9])
  {
    assert Power10(0) == 1;
  }

  lemma BehindTheNinth(kept: string, rest: string)
    requires |kept| == 9 && (forall c <- kept :: IsDigit(c)) && forall c <- rest :: IsDigit(c)
    ensures Value(kept + rest) * 1_000_000_000 / Power10(9 + |rest|) == Value(kept)
  {
    FieldValue(rest, |rest|);
    ValueConcat(kept, rest);
    ManyDigits(Value(kept + rest), Value(kept), Value(rest), |rest|);
  }

  lemma UpToNine(digits: string)
    requires |digits| <= 9 && Number(digits).Some?
    ensures FractionNanos(digits) == Value(digits) * Power10(9 - |digits|)
  {
  }

  lemma DigitsAsNanos(digits: string)
    requires forall c <- digits :: IsDigit(c)
    ensures FractionNanos(digits) == Value(digits) * 1_000_000_000 / Power10(|digits|)
  {
    if |digits| <= 9 {
      SomeNumber(digits);
      UpToNine(digits);
      FewDigits(Value(digits), |digits|);
    } else {
      ManyNanos(digits[..9], digits[9..], digits);
    }
  }

  lemma ManyNanos(kept: string, rest: string, digits: string)
    requires |kept| == 9 && rest != "" && digits == kept + rest
    requires (forall c <- kept :: IsDigit(c)) && forall c <- rest :: IsDigit(c)
    ensures FractionNanos(digits) == Value(digits) * 1_000_000_000 / Power10(|digits|)
  {
    assert digits[..9] == kept;
    SomeNumber(kept);
    NineDigits(digits);
    BehindTheNinth(kept, rest);
  }

  lemma FractionRead(fraction: string)
    requires IsFraction(fraction)
    ensures FractionOf(fraction) == FractionValue(fraction)
  {
    if fraction != "" {
      DigitsAsNanos(fraction[1..]);
    }
  }

  lemma ZoneRead(zone: string)
    requires IsZone(zone)
    ensures ZoneOf(zone) == ZoneMinutes(zone)
  {
    if zone != "Z" {
      TwoOf(zone, 1);
      assert zone[4..] == zone[4..6];
      TwoOf(zone, 4);
    }
  }

  // ------------------------------------------------- reading

  lemma PlacesBehind(f: DateTimeFields)
    requires HasShape(f)
    ensures var s, n := FieldsText(f), 19 + |f.fraction|;
            && |s| == n + |f.zone| && s[19..n] == f.fraction && s[n..] == f.zone
            && s[4] == s[7] == '-' && s[10] == 'T' && s[13] == s[16] == ':'
  {
  }

  lemma ZoneEnd(s: string, n: nat, zone: string)
    requires 19 <= n <= |s| && IsZone(zone) && s[n..] == zone
    ensures |s| >= 20 && (s[|s| - 1] == 'Z' || |s| >= 25) && ZonePart(s) == zone && FractionPart(s) == s[19..n]
  {
    assert s[|s| - 1] == zone[|zone| - 1];
    if zone != "Z" {
      assert zone[4..][1] == zone[5] && zone[5] in zone[4..];
    }
  }

  lemma FieldsStand(f: DateTimeFields, s: string)
    requires HasShape(f) && s == FieldsText(f)
    ensures IsDateTime(s) && FractionPart(s) == f.fraction && ZonePart(s) == f.zone
    ensures s[..4] == f.year && s[5..7] == f.month && s[8..10] == f.day
    ensures s[11..13] == f.hour && s[14..16] == f.minute && s[17..19] == f.second
  {
    Places(f);
    PlacesBehind(f);
    ZoneEnd(s, 19 + |f.fraction|, f.zone);
  }

  /** The six numbers of the date and the clock. */
  function Numbers(f: DateTimeFields): seq<nat> {
    [Value(f.year)] + Five(Value(f.month), Value(f.day), Value(f.hour), Value(f.minute), Value(f.second))
  }

  lemma StampNumbers(f: DateTimeFields, s: string)
    requires IsStamp(s) && s[..4] == f.year && s[5..7] == f.month && s[8..10] == f.day
    requires s[11..13] == f.hour && s[14..16] == f.minute && s[17..19] == f.second
    ensures |Numbers(f)| == 6
    ensures Numbers(f)[0] == Four(s, 0) && Numbers(f)[1] == Two(s, 5) && Numbers(f)[2] == Two(s, 8)
    ensures Numbers(f)[3] == Two(s, 11) && Numbers(f)[4] == Two(s, 14) && Numbers(f)[5] == Two(s, 17)
  {
    ValueFour(s[..4]);
    TwoOf(s, 5);
    TwoOf(s, 8);
    TwoOf(s, 11);
    TwoOf(s, 14);
    TwoOf(s, 17);
  }

  /** The seconds read from the numbers of a stamp. */
  lemma StampRead(v: seq<nat>, s: string)
    requires |s| >= 19 && |v| == 6 && v[0] == Four(s, 0) && v[1] == Two(s, 5) && v[2] == Two(s, 8)
    requires v[3] == Two(s, 11) && v[4] == Two(s, 14) && v[5] == Two(s, 17)
    ensures SecondsOf(v) == if StampInRange(s) then Some(StampSeconds(s)) else None
  {
  }

  /** What the parser makes of the parts it takes one after the other. */
  lemma ParseParts(s: string, values: seq<nat>, rest: string, nanos: nat, zone: string, offset: int)
    requires TakeLayout(YEAR + AFTER_YEAR, s) == Some((values, rest))
    requires TakeFraction(rest) == (nanos, zone) && TakeZone(zone) == Some(offset)
    ensures Parse(s).Some? <==> SecondsOf(values).Some?
    ensures Parse(s).Some? ==>
              Parse(s).value == Timestamp((SecondsOf(values).value - 60 * offset) * 1_000_000_000 + nanos, offset)
  {
  }

  lemma PartsRead(f: DateTimeFields, s: string)
    requires HasShape(f) && s == FieldsText(f)
    ensures Parse(s).Some? <==> SecondsOf(Numbers(f)).Some?
    ensures Parse(s).Some? ==> Parse(s).value == MomentOf(SecondsOf(Numbers(f)).value, f.fraction, f.zone)
  {
    FieldsTaken(f);
    FractionTaken(f.fraction, f.zone);
    FractionRead(f.fraction);
    ZoneTaken(f.zone);
    ZoneRead(f.zone);
    ParseParts(s, Numbers(f), f.fraction + f.zone, FractionOf(f.fraction), f.zone, ZoneOf(f.zone));
  }

  lemma StampOf(f: DateTimeFields, s: string)
    requires IsStamp(s) && s[..4] == f.year && s[5..7] == f.month && s[8..10] == f.day
    requires s[11..13] == f.hour && s[14..16] == f.minute && s[17..19] == f.second
    ensures SecondsOf(Numbers(f)) == if StampInRange(s) then Some(StampSeconds(s)) else None
  {
    StampNumbers(f, s);
    StampRead(Numbers(f), s);
  }

  lemma ShapeRead(f: DateTimeFields, s: string)
    requires HasShape(f) && s == FieldsText(f)
    ensures IsDateTime(s)
    ensures Parse(s) == if StampInRange(s) then Some(Moment(s)) else None
  {
    FieldsStand(f, s);
    StampOf(f, s);
    PartsRead(f, s);
  }

  /** Every text of the date-time rule is read as the moment its digits stand for, and refused exactly when
      its date does not exist or its clock is out of range. */
  lemma DateTimeRead(s: string)
    requires InLanguage(DateTime(), s)
    ensures IsDateTime(s)
    ensures Parse(s) == if StampInRange(s) then Some(Moment(s)) else None
  {
    var f := DateTimeElim(s);
    ShapeRead(f, s);
  }

  lemma DateJoins(date: string)
    requires |date| == 10 && date[4] == date[7] == '-'
    ensures date == date[..4] + ("-" + (date[5..7] + ("-" + date[8..10])))
  {
  }

  lemma ClockJoins(clock: string)
    requires |clock| >= 8 && clock[2] == clock[5] == ':'
    ensures clock == clock[..2] + (":" + (clock[3..5] + (":" + (clock[6..8] + clock[8..]))))
  {
  }

  lemma AllJoins(s: string, n: nat)
    requires 19 <= n <= |s| && s[10] == 'T'
    ensures s == s[..10] + ("T" + (s[11..n] + s[n..]))
  {
  }

  lemma Inside(s: string, lo: nat, hi: nat, i: nat, j: nat)
    requires i <= j && lo + j <= hi <= |s|
    ensures s[lo..hi][i..j] == s[lo + i..lo + j]
  {
    var part := s[lo..hi][i..j];
    assert forall k :: 0 <= k < |part| ==> part[k] == s[lo + i..lo + j][k];
  }

  /** The fields of a text, the fraction ending before place `n`. */
  function FieldsAt(s: string, n: nat): DateTimeFields
    requires 19 <= n <= |s|
  {
    DateTimeFields(s[..4], s[5..7], s[8..10], s[11..13], s[14..16], s[17..19], s[19..n], s[n..])
  }

  lemma FieldsJoin(s: string, n: nat)
    requires IsStamp(s) && 19 <= n <= |s|
    ensures s == FieldsText(FieldsAt(s, n))
  {
    var f, date, clock := FieldsAt(s, n), s[..10], s[11..n];
    DateJoins(date);
    Inside(s, 0, 10, 5, 7);
    Inside(s, 0, 10, 8, 10);
    assert date == s[0..10] && date[..4] == f.year;
    ClockJoins(clock);
    Inside(s, 11, n, 3, 5);
    Inside(s, 11, n, 6, 8);
    assert clock[..2] == f.hour && clock[8..] == f.fraction;
    AllJoins(s, n);
  }

  lemma DateTimeByChars(s: string)
    requires IsDateTime(s)
    ensures InLanguage(DateTime(), s)
  {
    var n := |s| - |ZonePart(s)|;
    assert s[n..] == ZonePart(s) && s[19..n] == FractionPart(s);
    FieldsJoin(s, n);
    FieldsIntro(FieldsAt(s, n));
  }

  /** The texts of the date-time rule, said without the rule. */
  lemma DateTimeExact(s: string)
    ensures InLanguage(DateTime(), s) <==> IsDateTime(s)
  {
    if InLanguage(DateTime(), s) {
      DateTimeRead(s);
    }
    if IsDateTime(s) {
      DateTimeByChars(s);
    }
  }

  // ------------------------------------------------- printing

  /** The seconds of the years 0 to 9999. */
  predicate IsFourDigitSecond(secs: int) { 0 <= secs < 86_400 * 3_652_425 }

  /** A day is in a year before `z` exactly when it lies before the first day of `z`. */
  lemma YearBefore(y: int, n: int, z: int)
    requires FirstDay(y) <= n < FirstDay(y) + YearLength(y)
    ensures y < z <==> n < FirstDay(z)
  {
    if y < z {
      FirstDayMonotonic(y, z);
    } else if z < y {
      FirstDayMonotonic(z, y);
    }
  }

  lemma FirstDayOf(z: int)
    ensures z == 0 ==> FirstDay(z) == 0
    ensures z == 10_000 ==> FirstDay(z) == 3_652_425
  {
    FirstDayClosed(z);
  }

  lemma DaysOfSeconds(secs: int, days: int)
    ensures secs / 86_400 < days <==> secs < 86_400 * days
  {
  }

  lemma FourDigitYears(secs: int)
    ensures 0 <= YearOfSeconds(secs) <= 9999 <==> IsFourDigitSecond(secs)
  {
    var y, n, first, last := YearOfSeconds(secs), secs / 86_400, 0, 10_000;
    DayInYear(DateOf(n));
    YearBefore(y, n, first);
    YearBefore(y, n, last);
    FirstDayOf(first);
    FirstDayOf(last);
    DaysOfSeconds(secs, 0);
    DaysOfSeconds(secs, 3_652_425);
  }

  lemma PaddedValue(n: nat, w: nat)
    requires n < Power10(w)
    ensures IsNumber(Pad(n, w), w) && Value(Pad(n, w)) == n
  {
    NumberPad(n, w);
  }

  /** The fields of a printed stamp. */
  function PrintedFields(y: nat, m: nat, d: nat, h: nat, i: nat, s: nat, fraction: string,
                         zone: string): DateTimeFields {
    DateTimeFields(Pad(y, 4), Pad(m, 2), Pad(d, 2), Pad(h, 2), Pad(i, 2), Pad(s, 2), fraction, zone)
  }

  lemma PrintedShape(y: nat, m: nat, d: nat, h: nat, i: nat, s: nat, fraction: string, zone: string)
    requires y < 10_000 && m < 100 && d < 100 && h < 100 && i < 100 && s < 100 && IsFraction(fraction) && IsZone(zone)
    ensures var f := PrintedFields(y, m, d, h, i, s, fraction, zone);
            HasShape(f) && Numbers(f) == [y] + Five(m, d, h, i, s)
  {
    Powers();
    PaddedValue(y, 4);
    PaddedValue(m, 2);
    PaddedValue(d, 2);
    PaddedValue(h, 2);
    PaddedValue(i, 2);
    PaddedValue(s, 2);
  }

  lemma PrintedText(y: nat, m: nat, d: nat, h: nat, i: nat, s: nat, fraction: string, zone: string)
    requires HasShape(PrintedFields(y, m, d, h, i, s, fraction, zone))
    ensures FieldsText(PrintedFields(y, m, d, h, i, s, fraction, zone))
         == Pad(y, 4) + (PrintLayout(AFTER_YEAR, Five(m, d, h, i, s)) + (fraction + zone))
  {
    StampText(m, d, h, i, s);
    TextAsLayout(PrintedFields(y, m, d, h, i, s, fraction, zone));
  }

  lemma StampShows(secs: int, fraction: string, zone: string, s: string)
    requires 0 <= YearOfSeconds(secs) <= 9999 && IsFraction(fraction) && IsZone(zone)
    requires s == Pad(YearOfSeconds(secs), 4) + (PrintLayout(AFTER_YEAR, AfterYear(secs)) + (fraction + zone))
    ensures IsDateTime(s) && FractionPart(s) == fraction && ZonePart(s) == zone
    ensures StampInRange(s) && StampSeconds(s) == secs
  {
    var date, clock := DateOf(secs / DAY), secs % DAY;
    var h, i, sec := clock / 3600, clock / 60 % 60, clock % 60;
    PrintedShape(date.year, date.month, date.day, h, i, sec, fraction, zone);
    PrintedText(date.year, date.month, date.day, h, i, sec, fraction, zone);
    var f := PrintedFields(date.year, date.month, date.day, h, i, sec, fraction, zone);
    FieldsStand(f, s);
    StampOf(f, s);
    SecondsAgain(secs);
  }

  lemma ZoneShows(offset: int)
    requires IsOffset(offset)
    ensures IsZone(ZoneText(offset)) && ZoneMinutes(ZoneText(offset)) == offset
    ensures ZoneText(offset) == "Z" <==> offset == 0
  {
    if offset != 0 {
      Powers();
      var abs := if offset > 0 then offset else -offset;
      PaddedValue(abs / 60, 2);
      PaddedValue(abs % 60, 2);
      ZoneDigits([abs / 60, abs % 60], Pad(abs / 60, 2), Pad(abs % 60, 2));
      SignedZone(ZoneText(offset), Pad(abs / 60, 2), Pad(abs % 60, 2));
      ZoneRead(ZoneText(offset));
    }
  }

  lemma SignedZone(zone: string, hour: string, minute: string)
    requires zone != "" && (zone[0] == '+' || zone[0] == '-') && zone[1..] == hour + (":" + minute)
    requires IsNumber(hour, 2) && IsNumber(minute, 2)
    ensures IsZone(zone) && zone[1..3] == hour && zone[4..] == minute
  {
  }

  /** The text is the date and the clock of the moment in its zone, in whole seconds, and the zone. */
  predicate Shows(s: string, t: Timestamp) {
    && IsDateTime(s) && StampInRange(s) && StampSeconds(s) == t.nanos / 1_000_000_000 + 60 * t.offset
    && FractionPart(s) == "" && ZoneMinutes(ZonePart(s)) == t.offset && (ZonePart(s) == "Z" <==> t.offset == 0)
  }

  /** What the server prints. */
  lemma FormatShows(t: Timestamp)
    requires IsOffset(t.offset) && IsFourDigitSecond(t.nanos / 1_000_000_000 + 60 * t.offset)
    ensures Shows(Format(t), t)
  {
    var secs, zone := LocalSeconds(t), ZoneText(t.offset);
    FourDigitYears(secs);
    FourDigitYear(YearOfSeconds(secs));
    ZoneShows(t.offset);
    assert "" + zone == zone;
    StampShows(secs, "", zone, Format(t));
  }

  /** What the browser prints: the moment in UTC, with three digits behind the point. */
  lemma IsoShows(millis: int)
    requires IsFourDigitSecond(millis / 1000)
    ensures var s := IsoString(millis);
            && IsDateTime(s) && StampInRange(s) && StampSeconds(s) == millis / 1000
            && |FractionPart(s)| == 4 && FractionValue(FractionPart(s)) == millis % 1000 * 1_000_000
            && ZonePart(s) == "Z"
  {
    var secs, fraction := millis / 1000, "." + Pad(millis % 1000, 3);
    FourDigitYears(secs);
    FourDigitYear(YearOfSeconds(secs));
    Powers();
    PaddedValue(millis % 1000, 3);
    assert fraction[1..] == Pad(millis % 1000, 3);
    StampShows(secs, fraction, "Z", IsoString(millis));
  }

  // ------------------------------------------------- any text

  lemma {:induction false} NumberDigits(s: string)
    requires Number(s).Some?
    ensures forall c <- s :: IsDigit(c)
  {
    forall c | c in s ensures IsDigit(c) {
      var k :| 0 <= k < |s| && s[k] == c;
      if !IsDigit(c) {
        NumberNotDigit(s, k);
      }
    }
  }

  lemma FieldSound(s: string, w: nat)
    requires w <= |s| && Number(s[..w]).Some?
    ensures Value(s[..w]) < Power10(w) && s == Pad(Value(s[..w]), w) + s[w..]
  {
    NumberDigits(s[..w]);
    FieldValue(s[..w], w);
    assert s == s[..w] + s[w..];
  }

  /** What is read along the layout is what the layout prints. */
  ghost predicate Sound(layout: seq<Piece>, s: string, v: seq<nat>, rest: string) {
    Fits(layout, v) && s == PrintLayout(layout, v) + rest
  }

  lemma LiteralSound(layout: seq<Piece>, s: string, v: seq<nat>, rest: string)
    requires layout != [] && layout[0].Lit? && s != "" && s[0] == layout[0].c && Sound(layout[1..], s[1..], v, rest)
    ensures Sound(layout, s, v, rest)
  {
    assert s == [s[0]] + s[1..];
  }

  lemma NumberSound(layout: seq<Piece>, w: nat, s: string, n: nat, v: seq<nat>, rest: string)
    requires layout != [] && layout[0] == Num(w) && n < Power10(w) && w <= |s| && s == Pad(n, w) + s[w..]
    requires Sound(layout[1..], s[w..], v, rest)
    ensures Sound(layout, s, [n] + v, rest)
  {
    assert ([n] + v)[1..] == v;
    assert s == Pad(n, w) + PrintLayout(layout[1..], v) + rest;
  }

  lemma {:induction false} LayoutSound(layout: seq<Piece>, s: string, v: seq<nat>, rest: string)
    requires TakeLayout(layout, s) == Some((v, rest))
    ensures Sound(layout, s, v, rest)
  {
    if layout == [] {
      assert s == "" + s;
    } else if layout[0].Lit? {
      LayoutSound(layout[1..], s[1..], v, rest);
      LiteralSound(layout, s, v, rest);
    } else {
      var w := layout[0].width;
      var n, more := Number(s[..w]).value, TakeLayout(layout[1..], s[w..]).value.0;
      LayoutSound(layout[1..], s[w..], more, rest);
      FieldSound(s, w);
      NumberSound(layout, w, s, n, more, rest);
    }
  }

  lemma FitsNext(c: char, layout: seq<Piece>, v: seq<nat>) returns (n: nat, more: seq<nat>)
    requires Fits(Then(c, layout), v)
    ensures v == [n] + more && n < 100 && Fits(layout, more)
  {
    var whole := Then(c, layout);
    assert whole[1..] == [Num(2)] + layout && whole[1..][1..] == layout;
    Powers();
    assert Fits(whole[1..], v);
    n, more := v[0], v[1..];
  }

  lemma FitsFive(v: seq<nat>) returns (m: nat, d: nat, h: nat, i: nat, s: nat)
    requires Fits(AFTER_YEAR, v)
    ensures v == Five(m, d, h, i, s) && m < 100 && d < 100 && h < 100 && i < 100 && s < 100
  {
    var v1, v2, v3, v4, v5;
    m, v1 := FitsNext('-', Then('-', Then('T', Then(':', Then(':', [])))), v);
    d, v2 := FitsNext('-', Then('T', Then(':', Then(':', []))), v1);
    h, v3 := FitsNext('T', Then(':', Then(':', [])), v2);
    i, v4 := FitsNext(':', Then(':', []), v3);
    s, v5 := FitsNext(':', [], v4);
    assert v5 == [];
  }

  lemma FitsYear(v: seq<nat>)
    requires Fits(YEAR + AFTER_YEAR, v)
    ensures v != [] && v[0] < 10_000 && Fits(AFTER_YEAR, v[1..])
  {
    Powers();
    assert (YEAR + AFTER_YEAR)[1..] == AFTER_YEAR;
  }

  lemma YearLayout(v: seq<nat>, rest: string)
    requires v != []
    ensures PrintLayout(YEAR + AFTER_YEAR, v) + rest == Pad(v[0], 4) + (PrintLayout(AFTER_YEAR, v[1..]) + rest)
  {
    assert (YEAR + AFTER_YEAR)[1..] == AFTER_YEAR;
  }

  lemma FractionSound(s: string) returns (fraction: string)
    ensures IsFraction(fraction) && s == fraction + TakeFraction(s).1
  {
    if |s| >= 2 && s[0] == '.' && IsDigit(s[1]) {
      var n := DigitRun(s[1..]);
      fraction := s[..n + 1];
      assert s[1..][..n] == s[1..n + 1] && s[1..][n..] == s[n + 1..] && fraction[1..] == s[1..][..n];
    } else {
      fraction := "";
      assert "" + s == s;
    }
  }

  lemma FitsHoursMinutes(v: seq<nat>)
    requires Fits(HOURS_MINUTES, v)
    ensures |v| == 2 && v[0] < 100 && v[1] < 100
  {
    Powers();
    assert HOURS_MINUTES[1..] == Then(':', []);
    var minute, more := FitsNext(':', [], v[1..]);
  }

  lemma ZoneSound(zone: string)
    requires TakeZone(zone).Some?
    ensures IsZone(zone)
  {
    if zone != "Z" {
      var v := TakeLayout(HOURS_MINUTES, zone[1..]).value.0;
      LayoutSound(HOURS_MINUTES, zone[1..], v, "");
      FitsHoursMinutes(v);
      Powers();
      PaddedValue(v[0], 2);
      PaddedValue(v[1], 2);
      ZoneDigits(v, Pad(v[0], 2), Pad(v[1], 2));
      var text := PrintLayout(HOURS_MINUTES, v);
      assert text + "" == text;
      SignedZone(zone, Pad(v[0], 2), Pad(v[1], 2));
    }
  }

  lemma ParsedShape(s: string)
    requires Parse(s).Some?
    ensures IsDateTime(s)
  {
    var (v, rest) := TakeLayout(YEAR + AFTER_YEAR, s).value;
    LayoutSound(YEAR + AFTER_YEAR, s, v, rest);
    FitsYear(v);
    var m, d, h, i, sec := FitsFive(v[1..]);
    YearLayout(v, rest);
    var fraction := FractionSound(rest);
    var zone := TakeFraction(rest).1;
    ZoneSound(zone);
    PrintedShape(v[0], m, d, h, i, sec, fraction, zone);
    PrintedText(v[0], m, d, h, i, sec, fraction, zone);
    FieldsStand(PrintedFields(v[0], m, d, h, i, sec, fraction, zone), s);
  }

  /** The parser on every text: it takes exactly the date-times with an existing date and a clock in range, and
      makes of them the moment their digits stand for. */
  lemma ParseExact(s: string)
    ensures Parse(s) == if IsDateTime(s) && StampInRange(s) then Some(Moment(s)) else None
  {
    if IsDateTime(s) {
      DateTimeByChars(s);
      DateTimeRead(s);
    } else if Parse(s).Some? {
      ParsedShape(s);
    }
  }

  lemma SomeDay(d: Date)
    requires d == Date(2022, 5, 31)
    ensures IsDate(d) && DayNumber(d) == 738_671
  {
    SomeDates(d);
    SomeDayNumbers(d);
  }

  lemma SomeNumbers(s: string)
    requires "2022-05-31T10:20:30" <= s
    ensures Four(s, 0) == 2022 && Two(s, 5) == 5 && Two(s, 8) == 31
    ensures Two(s, 11) == 10 && Two(s, 14) == 20 && Two(s, 17) == 30
  {
  }

  lemma SomeShape(s: string)
    requires "2022-05-31T10:20:30" <= s
    ensures IsStamp(s)
  {
    assert s[..4] == "2022" && s[5..7] == "05" && s[8..10] == "31";
    assert s[11..13] == "10" && s[14..16] == "20" && s[17..19] == "30";
  }

  lemma SomeStamp(s: string, d: Date)
    requires "2022-05-31T10:20:30" <= s && d == Date(2022, 5, 31)
    ensures IsStamp(s) && StampInRange(s) && StampSeconds(s) == 63_821_211_630
  {
    SomeShape(s);
    SomeNumbers(s);
    SomeDay(d);
  }

  /** A moment of the client, digit by digit. */
  lemma SomeMoment(s: string)
    requires s == "2022-05-31T10:20:30Z"
    ensures Parse(s) == Some(Timestamp(63_821_211_630 * 1_000_000_000, 0))
  {
    SomeStamp(s, Date(2022, 5, 31));
    DateTimeByChars(s);
    DateTimeRead(s);
  }

  lemma Half(fraction: string)
    requires fraction == ".5"
    ensures IsFraction(fraction) && FractionValue(fraction) == 500_000_000
  {
    assert fraction[1..] == "5" && "5"[..0] == "";
    assert Number("5") == Some(5);
    assert Power10(1) == 10;
  }

  lemma EightHours(zone: string)
    requires zone == "+08:00"
    ensures IsZone(zone) && ZoneMinutes(zone) == 480
  {
    assert zone[1..3] == "08" && zone[4..] == "00";
  }

  /** The same clock eight hours ahead of UTC, and half a second. */
  lemma SomeZonedMoment(s: string)
    requires s == "2022-05-31T10:20:30" + (".5" + "+08:00")
    ensures Parse(s) == Some(Timestamp((63_821_211_630 - 8 * 3_600) * 1_000_000_000 + 500_000_000, 480))
  {
    SomeStamp(s, Date(2022, 5, 31));
    EightHours("+08:00");
    Half(".5");
    assert s[21..] == "+08:00" && s[19..21] == ".5";
    ZoneEnd(s, 21, "+08:00");
    DateTimeByChars(s);
    DateTimeRead(s);
  }
}
