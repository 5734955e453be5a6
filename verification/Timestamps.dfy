/** Instants and their RFC 3339 texts: what Go's `time.Format` and `time.Parse` do with the RFC 3339
    layout, and what JavaScript's `toISOString` prints. */
module Timestamps {
  import opened Wrappers
  import opened Strings
  import opened Calendar

  const SECOND := 1_000_000_000   // nanoseconds
  const DAY := 86_400             // seconds

  /** An instant in nanoseconds since 0000-01-01T00:00:00Z, seen from an offset of whole minutes. */
  datatype Timestamp = Timestamp(nanos: int, offset: int)

  predicate IsOffset(offset: int) { -1440 < offset < 1440 }

  function Power10(w: nat): (p: nat)
    ensures p >= 1
  {
    if w == 0 then 1 else 10 * Power10(w - 1)
  }

  /** The last `w` decimal digits of `n`. */
  function Pad(n: nat, w: nat): (s: string)
    ensures |s| == w && AllDigits(s)
  {
    if w == 0 then "" else Pad(n / 10, w - 1) + [DigitChar(n % 10)]
  }

  lemma {:induction false} NumberPad(n: nat, w: nat)
    requires n < Power10(w)
    ensures Number(Pad(n, w)) == Some(n)
  {
    if w > 0 {
      NumberPad(n / 10, w - 1);
      assert Pad(n, w)[..w - 1] == Pad(n / 10, w - 1);
    }
  }

  // ------------------------------------------------- layouts

  /** A layout is read and printed piece by piece, as `time.Parse` and `time.Format` walk theirs. */
  datatype Piece = Num(width: nat) | Lit(c: char)

  /** `c` and two digits, before the rest of the layout. */
  function Then(c: char, rest: seq<Piece>): seq<Piece> { [Lit(c), Num(2)] + rest }

  const YEAR: seq<Piece> := [Num(4)]
  const AFTER_YEAR: seq<Piece> := Then('-', Then('-', Then('T', Then(':', Then(':', [])))))
  const HOURS_MINUTES: seq<Piece> := [Num(2), Lit(':'), Num(2)]

  /** The numbers of `values` fill the pieces of the layout, each within its width. */
  ghost predicate Fits(layout: seq<Piece>, values: seq<nat>) {
    if layout == [] then values == []
    else if layout[0].Lit? then Fits(layout[1..], values)
    else values != [] && values[0] < Power10(layout[0].width) && Fits(layout[1..], values[1..])
  }

  function PrintLayout(layout: seq<Piece>, values: seq<nat>): string {
    if layout == [] then ""
    else match layout[0]
      case Lit(c) => [c] + PrintLayout(layout[1..], values)
      case Num(w) => if values == [] then "" else Pad(values[0], w) + PrintLayout(layout[1..], values[1..])
  }

  /** The numbers read along the layout and the text after them. */
  function TakeLayout(layout: seq<Piece>, s: string): Option<(seq<nat>, string)> {
    if layout == [] then Some(([], s))
    else match layout[0]
      case Lit(c) => if s != "" && s[0] == c then TakeLayout(layout[1..], s[1..]) else None
      case Num(w) =>
        if |s| < w then None
        else match Number(s[..w])
          case None => None
          case Some(n) =>
            match TakeLayout(layout[1..], s[w..])
            case None => None
            case Some((values, rest)) => Some(([n] + values, rest))
  }

  lemma TakeDrop(a: string, b: string, c: string)
    ensures (a + b + c)[..|a|] == a && (a + b + c)[|a|..] == b + c
  {
  }

  lemma PadFirst(n: nat, w: nat, tail: string, rest: string)
    requires n < Power10(w)
    ensures var s := Pad(n, w) + tail + rest;
            |s| >= w && Number(s[..w]) == Some(n) && s[w..] == tail + rest
  {
    NumberPad(n, w);
    TakeDrop(Pad(n, w), tail, rest);
  }

  lemma {:induction false} LayoutRoundTrip(layout: seq<Piece>, values: seq<nat>, rest: string)
    requires Fits(layout, values)
    ensures TakeLayout(layout, PrintLayout(layout, values) + rest) == Some((values, rest))
  {
    if layout == [] {
      assert "" + rest == rest;
    } else if layout[0].Lit? {
      LayoutRoundTrip(layout[1..], values, rest);
      assert (PrintLayout(layout, values) + rest)[1..] == PrintLayout(layout[1..], values) + rest;
    } else {
      LayoutRoundTrip(layout[1..], values[1..], rest);
      NumberFirst(layout[0].width, layout[1..], values[0], values[1..], rest);
      assert [Num(layout[0].width)] + layout[1..] == layout && [values[0]] + values[1..] == values;
    }
  }

  lemma NumberFirst(w: nat, layout: seq<Piece>, n: nat, values: seq<nat>, rest: string)
    requires n < Power10(w) && TakeLayout(layout, PrintLayout(layout, values) + rest) == Some((values, rest))
    ensures TakeLayout([Num(w)] + layout, PrintLayout([Num(w)] + layout, [n] + values) + rest)
         == Some(([n] + values, rest))
  {
    assert ([Num(w)] + layout)[1..] == layout && ([n] + values)[1..] == values;
    PadFirst(n, w, PrintLayout(layout, values), rest);
  }

  // ------------------------------------------------- printing

  function YearText(y: int): string {
    if 0 <= y <= 9999 then Pad(y, 4)
    else if y > 9999 then Decimal(y)
    else if y >= -9999 then "-" + Pad(-y, 4)
    else "-" + Decimal(-y)
  }

  function Five(m: nat, d: nat, h: nat, i: nat, s: nat): seq<nat> { [m] + ([d] + ([h] + ([i] + ([s] + [])))) }

  /** Month, day, hour, minute and second of a number of seconds since 0000-01-01T00:00:00. */
  function AfterYear(secs: int): seq<nat> {
    var d := DateOf(secs / DAY);
    var clock := secs % DAY;
    Five(d.month, d.day, clock / 3600, clock / 60 % 60, clock % 60)
  }

  function ZoneText(offset: int): string {
    if offset == 0 then "Z"
    else if offset > 0 then "+" + PrintLayout(HOURS_MINUTES, [offset / 60, offset % 60])
    else "-" + PrintLayout(HOURS_MINUTES, [(-offset) / 60, (-offset) % 60])
  }

  function LocalSeconds(t: Timestamp): int { t.nanos / SECOND + 60 * t.offset }

  function YearOfSeconds(secs: int): int { DateOf(secs / DAY).year }

  /** `t.Format(time.RFC3339)`: seconds, no fraction, in the offset of `t`. */
  function Format(t: Timestamp): string {
    var secs := LocalSeconds(t);
    YearText(YearOfSeconds(secs)) + (PrintLayout(AFTER_YEAR, AfterYear(secs)) + ZoneText(t.offset))
  }

  function IsoYearText(y: int): string {
    if 0 <= y <= 9999 then Pad(y, 4)
    else if y > 9999 then "+" + Pad(y, 6)
    else "-" + Pad(-y, 6)
  }

  /** `toISOString` of a number of milliseconds since 0000-01-01T00:00:00Z: always UTC with three decimals. */
  function IsoString(millis: int): string {
    var secs := millis / 1000;
    IsoYearText(YearOfSeconds(secs)) + (PrintLayout(AFTER_YEAR, AfterYear(secs)) + ("." + Pad(millis % 1000, 3) + "Z"))
  }

  // ------------------------------------------------- parsing

  /** The length of the run of digits at the start of `s`. */
  function DigitRun(s: string): (n: nat)
    ensures n <= |s| && AllDigits(s[..n])
  {
    if s == "" || !IsDigit(s[0]) then 0
    else
      var n := DigitRun(s[1..]);
      assert s[..n + 1] == [s[0]] + s[1..][..n];
      n + 1
  }

  /** Digits after the point as nanoseconds; digits beyond the ninth are dropped. */
  function FractionNanos(digits: string): nat {
    var kept := if |digits| > 9 then digits[..9] else digits;
    match Number(kept) case None => 0 case Some(n) => n * Power10(9 - |kept|)
  }

  /** The fraction, which the layout does not ask for and the parser takes when it is there. */
  function TakeFraction(s: string): (nat, string) {
    if |s| >= 2 && s[0] == '.' && IsDigit(s[1]) then
      var n := DigitRun(s[1..]);
      (FractionNanos(s[1..][..n]), s[1..][n..])
    else (0, s)
  }

  function TakeZone(s: string): Option<int> {
    if s == "Z" then Some(0)
    else if s == "" || (s[0] != '+' && s[0] != '-') then None
    else match TakeLayout(HOURS_MINUTES, s[1..])
      case None => None
      case Some((v, rest)) =>
        if rest != "" || |v| != 2 then None
        else Some(if s[0] == '+' then 60 * v[0] + v[1] else -((60 * v[0] + v[1]) as int))
  }

  /** The seconds since 0000-01-01T00:00:00 of year, month, day, hour, minute and second; None out of range. */
  function SecondsOf(v: seq<nat>): Option<int> {
    if |v| != 6 || !IsDate(Date(v[0], v[1], v[2])) || v[3] >= 24 || v[4] >= 60 || v[5] >= 60 then None
    else Some(DAY * DayNumber(Date(v[0], v[1], v[2])) + 3600 * v[3] + 60 * v[4] + v[5])
  }

  /** `time.Parse(time.RFC3339, s)`; None stands for its error. */
  function Parse(s: string): Option<Timestamp> {
    match TakeLayout(YEAR + AFTER_YEAR, s)
    case None => None
    case Some((values, rest)) =>
      var (nanos, zone) := TakeFraction(rest);
      match (SecondsOf(values), TakeZone(zone))
      case (Some(secs), Some(offset)) => Some(Timestamp((secs - 60 * offset) * SECOND + nanos, offset))
      case _ => None
  }

  // ------------------------------------------------- parsing undoes printing

  /** The instant at the start of its second. */
  function Truncated(t: Timestamp): Timestamp { Timestamp(t.nanos / SECOND * SECOND, t.offset) }

  lemma Powers()
    ensures Power10(0) == 1 && Power10(2) == 100 && Power10(3) == 1000 && Power10(4) == 10000 && Power10(6) == 1_000_000
  {
    assert Power10(1) == 10;
  }

  lemma FitsField(c: char, v: nat, layout: seq<Piece>, values: seq<nat>)
    requires v < 100 && Fits(layout, values)
    ensures Fits(Then(c, layout), [v] + values)
  {
    Powers();
    var whole := Then(c, layout);
    assert whole[1..] == [Num(2)] + layout && whole[1..][1..] == layout;
    assert ([v] + values)[1..] == values;
  }

  lemma FiveFit(m: nat, d: nat, h: nat, i: nat, s: nat)
    requires m < 100 && d < 100 && h < 100 && i < 100 && s < 100
    ensures Fits(AFTER_YEAR, Five(m, d, h, i, s))
  {
    FitsField(':', s, [], []);
    FitsField(':', i, Then(':', []), [s] + []);
    FitsField('T', h, Then(':', Then(':', [])), [i] + ([s] + []));
    FitsField('-', d, Then('T', Then(':', Then(':', []))), [h] + ([i] + ([s] + [])));
    FitsField('-', m, Then('-', Then('T', Then(':', Then(':', [])))), [d] + ([h] + ([i] + ([s] + []))));
  }

  lemma AfterYearFits(secs: int)
    ensures Fits(AFTER_YEAR, AfterYear(secs))
  {
    var d, clock := DateOf(secs / DAY), secs % DAY;
    FiveFit(d.month, d.day, clock / 3600, clock / 60 % 60, clock % 60);
  }

  lemma YearFirst(y: nat, v: seq<nat>, rest: string)
    requires y <= 9999 && Fits(AFTER_YEAR, v)
    ensures TakeLayout(YEAR + AFTER_YEAR, Pad(y, 4) + (PrintLayout(AFTER_YEAR, v) + rest)) == Some(([y] + v, rest))
  {
    Powers();
    var layout := YEAR + AFTER_YEAR;
    var tail := PrintLayout(AFTER_YEAR, v);
    assert layout[0] == Num(4) && layout[1..] == AFTER_YEAR;
    LayoutRoundTrip(AFTER_YEAR, v, rest);
    PadFirst(y, 4, tail, rest);
    assert Pad(y, 4) + tail + rest == Pad(y, 4) + (tail + rest);
  }

  lemma StampLayout(secs: int, rest: string)
    requires 0 <= YearOfSeconds(secs) <= 9999
    ensures TakeLayout(YEAR + AFTER_YEAR,
                       Pad(YearOfSeconds(secs), 4) + (PrintLayout(AFTER_YEAR, AfterYear(secs)) + rest))
         == Some(([YearOfSeconds(secs)] + AfterYear(secs), rest))
  {
    AfterYearFits(secs);
    YearFirst(YearOfSeconds(secs), AfterYear(secs), rest);
  }

  lemma ClockAgain(clock: nat)
    requires clock < DAY
    ensures clock / 3600 < 24 && 3600 * (clock / 3600) + 60 * (clock / 60 % 60) + clock % 60 == clock
  {
  }

  lemma SecondsAgain(secs: int)
    requires 0 <= YearOfSeconds(secs)
    ensures SecondsOf([YearOfSeconds(secs)] + AfterYear(secs)) == Some(secs)
  {
    ClockAgain(secs % DAY);
    var d := DateOf(secs / DAY);
    assert Date(d.year, d.month, d.day) == d;
  }

  lemma FourDigitYear(y: int)
    requires 0 <= y <= 9999
    ensures YearText(y) == IsoYearText(y) == Pad(y, 4)
  {
  }

  lemma StampParses(secs: int, rest: string, nanos: nat, zone: string, offset: int)
    requires 0 <= YearOfSeconds(secs) <= 9999
    requires TakeFraction(rest) == (nanos, zone) && TakeZone(zone) == Some(offset)
    ensures Parse(Pad(YearOfSeconds(secs), 4) + (PrintLayout(AFTER_YEAR, AfterYear(secs)) + rest))
         == Some(Timestamp((secs - 60 * offset) * SECOND + nanos, offset))
  {
    StampLayout(secs, rest);
    SecondsAgain(secs);
  }

  lemma HoursMinutesFit(hours: nat, minutes: nat)
    requires hours < Power10(2) && minutes < Power10(2)
    ensures Fits(HOURS_MINUTES, [hours, minutes])
  {
    assert Fits([], []);
    assert [minutes][1..] == [] && [Num(2)][1..] == [];
    assert Fits([Num(2)], [minutes]);
    assert [hours, minutes][1..] == [minutes];
    assert HOURS_MINUTES[1..] == [Lit(':'), Num(2)] && HOURS_MINUTES[1..][1..] == [Num(2)];
  }

  lemma ZoneTextParses(offset: int)
    requires IsOffset(offset)
    ensures TakeZone(ZoneText(offset)) == Some(offset)
    ensures TakeFraction(ZoneText(offset)) == (0, ZoneText(offset))
  {
    if offset != 0 {
      Powers();
      var abs := if offset > 0 then offset else -offset;
      var v := [abs / 60, abs % 60];
      HoursMinutesFit(abs / 60, abs % 60);
      LayoutRoundTrip(HOURS_MINUTES, v, "");
      var text := PrintLayout(HOURS_MINUTES, v);
      assert text + "" == text && ZoneText(offset)[1..] == text;
    }
  }

  /** Printing drops the fraction of a second and nothing else. */
  lemma FormatParses(t: Timestamp)
    requires IsOffset(t.offset) && 0 <= YearOfSeconds(LocalSeconds(t)) <= 9999
    ensures Parse(Format(t)) == Some(Truncated(t))
  {
    LocalStampParses(LocalSeconds(t), t.offset);
  }

  lemma LocalStampParses(secs: int, offset: int)
    requires IsOffset(offset) && 0 <= YearOfSeconds(secs) <= 9999
    ensures Parse(YearText(YearOfSeconds(secs)) + (PrintLayout(AFTER_YEAR, AfterYear(secs)) + ZoneText(offset)))
         == Some(Timestamp((secs - 60 * offset) * SECOND, offset))
  {
    FourDigitYear(YearOfSeconds(secs));
    ZoneTextParses(offset);
    StampParses(secs, ZoneText(offset), 0, ZoneText(offset), offset);
  }

  lemma {:induction false} DecimalLength(n: nat, w: nat)
    requires n >= Power10(w)
    ensures |Decimal(n)| > w
  {
    if w > 0 {
      DecimalLength(n / 10, w - 1);
    }
  }

  lemma YearTextTooLong(y: int)
    requires !(0 <= y <= 9999)
    ensures |YearText(y)| >= 5 && (YearText(y)[0] == '-' || IsDigit(YearText(y)[4]))
  {
    Powers();
    if y > 9999 {
      DecimalLength(y, 4);
    } else if y < -9999 {
      DecimalLength(-y, 4);
    }
  }

  lemma {:induction false} NumberNotDigit(s: string, i: nat)
    requires i < |s| && !IsDigit(s[i])
    ensures Number(s) == None
  {
    if i < |s| - 1 {
      NumberNotDigit(s[..|s| - 1], i);
    }
  }

  lemma LongYearFails(y: string, rest: string)
    requires |y| >= 5 && (y[0] == '-' || IsDigit(y[4]))
    ensures TakeLayout(YEAR + AFTER_YEAR, y + rest) == None
  {
    var s, layout := y + rest, YEAR + AFTER_YEAR;
    assert s[..4] == y[..4] && s[4..][0] == y[4];
    assert layout[1..] == AFTER_YEAR && layout[0] == Num(4);
    if y[0] == '-' {
      NumberNotDigit(y[..4], 0);
    } else {
      assert TakeLayout(AFTER_YEAR, s[4..]) == None;
    }
  }

  /** A year that needs a sign or a fifth digit is printed, but the parser refuses it. */
  lemma FormatOutOfRange(t: Timestamp)
    requires !(0 <= YearOfSeconds(LocalSeconds(t)) <= 9999)
    ensures Parse(Format(t)) == None
  {
    var secs := LocalSeconds(t);
    YearTextTooLong(YearOfSeconds(secs));
    LongYearFails(YearText(YearOfSeconds(secs)), PrintLayout(AFTER_YEAR, AfterYear(secs)) + ZoneText(t.offset));
  }

  lemma FractionParses(millis: nat)
    requires millis < 1000
    ensures TakeFraction("." + Pad(millis, 3) + "Z") == (millis * 1_000_000, "Z")
  {
    Powers();
    var p := Pad(millis, 3);
    var s := p + "Z";
    NumberPad(millis, 3);
    assert s[3] == 'Z' && forall i :: 0 <= i < 3 ==> s[i] == p[i] && IsDigit(s[i]);
    assert s[1..][1..] == s[2..] && s[2..][1..] == s[3..];
    assert DigitRun(s[3..]) == 0;
    assert DigitRun(s[2..]) == 1;
    assert DigitRun(s[1..]) == 2;
    assert DigitRun(s) == 3;
    assert s[..3] == p && s[3..] == "Z";
    assert ("." + p + "Z")[1..] == s;
  }

  lemma IsoStampParses(secs: int, millis: nat)
    requires 0 <= YearOfSeconds(secs) <= 9999 && millis < 1000
    ensures Parse(IsoYearText(YearOfSeconds(secs))
                  + (PrintLayout(AFTER_YEAR, AfterYear(secs)) + ("." + Pad(millis, 3) + "Z")))
         == Some(Timestamp((secs - 60 * 0) * SECOND + millis * 1_000_000, 0))
  {
    FourDigitYear(YearOfSeconds(secs));
    FractionParses(millis);
    StampParses(secs, "." + Pad(millis, 3) + "Z", millis * 1_000_000, "Z", 0);
  }

  /** JavaScript's text of a moment is read back to the millisecond. */
  lemma IsoStringParses(millis: int)
    requires 0 <= YearOfSeconds(millis / 1000) <= 9999
    ensures Parse(IsoString(millis)) == Some(Timestamp(millis * 1_000_000, 0))
  {
    IsoStampParses(millis / 1000, millis % 1000);
  }
}
