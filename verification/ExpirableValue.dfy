/** A cookie value with an expiry time, written as `value|RFC 3339 time`. */
module ExpirableValues {
  import opened Wrappers
  import opened Strings
  import opened Timestamps
  import opened TimeTexts

  const DELIMITOR := '|'

  function EncodeText(value: string, expiry: Timestamp): string {
    value + [DELIMITOR] + Format(expiry)
  }

  /** The two parts of a text with exactly one delimitor, the second not yet read as a time. */
  function Halves(s: string): Option<(string, string)> {
    var parts := Split(s, DELIMITOR);
    if |parts| == 2 then Some((parts[0], parts[1])) else None
  }

  function DecodeText(s: string): Option<(string, Timestamp)> {
    match Halves(s)
    case None => None
    case Some((value, time)) =>
      match Parse(time)
      case None => None
      case Some(expiry) => Some((value, expiry))
  }

  class ExpirableValue {
    var value: string
    var expiryTime: Timestamp

    constructor (value: string, expiryTime: Timestamp)
      ensures this.value == value && this.expiryTime == expiryTime
    {
      this.value := value;
      this.expiryTime := expiryTime;
    }

    /** The value, the delimitor and the time to the second, digit by digit.  Exactly the values without the
        delimitor and times of four-digit years can be decoded again. */
    function Encode(): (s: string)
      reads this
      ensures value + "|" <= s
      ensures IsOffset(expiryTime.offset)
          && IsFourDigitSecond(expiryTime.nanos / 1_000_000_000 + 60 * expiryTime.offset)
          ==> Shows(s[|value| + 1..], expiryTime)
      ensures IsOffset(expiryTime.offset)
          ==> DecodeText(s) ==
              if DELIMITOR !in value && YearInRange(expiryTime) then Some((value, Truncated(expiryTime))) else None
    {
      EncodedTime(value, expiryTime);
      if IsOffset(expiryTime.offset) then RoundTrip(value, expiryTime); EncodeText(value, expiryTime)
      else EncodeText(value, expiryTime)
    }

    /** A text with one delimitor is read as the value in front of it and the moment whose digits stand
        behind it.  On a bad time the value has already been assigned. */
    method ParseString(str: string) returns (ok: bool)
      modifies this
      ensures ok == DecodeText(str).Some? && (ok ==> (value, expiryTime) == DecodeText(str).value)
      ensures forall a, time :: IsHalves(str, a, time) ==>
                && value == a && (ok <==> IsDateTime(time) && StampInRange(time))
                && (ok ==> expiryTime == Moment(time))
      ensures !(exists a, time :: IsHalves(str, a, time)) ==> !ok && value == old(value)
      ensures !ok ==> expiryTime == old(expiryTime)
    {
      OneDelimitor(str);
      var splittedString := Split(str, DELIMITOR);
      if |splittedString| != 2 {
        return false;
      }
      OneSplit(str, splittedString[0], splittedString[1]);
      value := splittedString[0];
      ParseExact(splittedString[1]);
      var expiry := Parse(splittedString[1]);
      if expiry.None? {
        return false;
      }
      expiryTime := expiry.value;
      return true;
    }
  }

  /** `IsExpired`, with the clock as a parameter. */
  predicate Expired(expiry: Timestamp, now: int) { expiry.nanos < now }

  predicate YearInRange(t: Timestamp) { 0 <= YearOfSeconds(LocalSeconds(t)) <= 9999 }

  lemma FormatHasNoDelimitor(t: Timestamp)
    requires YearInRange(t)
    ensures DELIMITOR !in Format(t)
  {
    LayoutAvoids(AFTER_YEAR, AfterYear(LocalSeconds(t)));
    ZoneAvoids(t.offset);
  }

  lemma {:induction false} LayoutAvoids(layout: seq<Piece>, values: seq<nat>)
    requires forall p <- layout :: p.Lit? ==> p.c != DELIMITOR
    ensures DELIMITOR !in PrintLayout(layout, values)
  {
    if layout != [] {
      if layout[0].Lit? {
        LayoutAvoids(layout[1..], values);
      } else if values != [] {
        LayoutAvoids(layout[1..], values[1..]);
      }
    }
  }

  lemma ZoneAvoids(offset: int)
    ensures DELIMITOR !in ZoneText(offset)
  {
    if offset > 0 {
      LayoutAvoids(HOURS_MINUTES, [offset / 60, offset % 60]);
    } else if offset < 0 {
      LayoutAvoids(HOURS_MINUTES, [(-offset) / 60, (-offset) % 60]);
    }
  }

  /** Encoding is undone by decoding exactly for a value without the delimitor and a four-digit year;
      the time comes back at the start of its second.  Every other encoding is refused. */
  lemma RoundTrip(value: string, expiry: Timestamp)
    requires IsOffset(expiry.offset)
    ensures DELIMITOR !in value && YearInRange(expiry)
        ==> DecodeText(EncodeText(value, expiry)) == Some((value, Truncated(expiry)))
    ensures !(DELIMITOR !in value && YearInRange(expiry)) ==> DecodeText(EncodeText(value, expiry)) == None
  {
    var time := Format(expiry);
    SplitInTwo(value, time, DELIMITOR);
    if YearInRange(expiry) {
      FormatHasNoDelimitor(expiry);
      FormatParses(expiry);
    } else {
      FormatOutOfRange(expiry);
    }
  }

  ghost predicate IsHalves(s: string, a: string, b: string) {
    s == a + [DELIMITOR] + b && DELIMITOR !in a && DELIMITOR !in b
  }

  lemma OneSplit(s: string, a: string, b: string)
    requires Split(s, DELIMITOR) == [a, b]
    ensures IsHalves(s, a, b)
    ensures forall c, d :: IsHalves(s, c, d) ==> c == a && d == b
  {
    SplitFree(s, DELIMITOR);
    JoinSplit(s, DELIMITOR);
    forall c, d | IsHalves(s, c, d) ensures c == a && d == b {
      FirstSeparator(a, b, c, d, DELIMITOR);
    }
  }

  lemma EncodedTime(value: string, expiry: Timestamp)
    ensures value + "|" <= EncodeText(value, expiry)
    ensures IsOffset(expiry.offset) && IsFourDigitSecond(expiry.nanos / 1_000_000_000 + 60 * expiry.offset)
        ==> Shows(EncodeText(value, expiry)[|value| + 1..], expiry)
  {
    assert EncodeText(value, expiry)[|value| + 1..] == Format(expiry);
    if IsOffset(expiry.offset) && IsFourDigitSecond(expiry.nanos / 1_000_000_000 + 60 * expiry.offset) {
      FormatShows(expiry);
    }
  }

  /** A text with no delimitor, or more than one, is refused whatever it holds. */
  lemma OneDelimitor(s: string)
    ensures Halves(s).Some? <==> exists a, b :: IsHalves(s, a, b)
    ensures DecodeText(s).Some? ==> exists a, b :: IsHalves(s, a, b)
  {
    if Halves(s).Some? {
      var parts := Split(s, DELIMITOR);
      SplitFree(s, DELIMITOR);
      JoinSplit(s, DELIMITOR);
      assert IsHalves(s, parts[0], parts[1]);
    }
    if exists a, b :: IsHalves(s, a, b) {
      var a, b :| IsHalves(s, a, b);
      SplitInTwo(a, b, DELIMITOR);
    }
  }

  /** A decoded value never outlives the encoded one, and falls short of it by less than a second. */
  lemma ExpiryAfterRoundTrip(value: string, expiry: Timestamp, decoded: Timestamp, now: int)
    requires IsOffset(expiry.offset) && DecodeText(EncodeText(value, expiry)) == Some((value, decoded))
    ensures Expired(expiry, now) ==> Expired(decoded, now)
    ensures Expired(decoded, now) ==> Expired(expiry, now + SECOND)
  {
    RoundTrip(value, expiry);
  }
}
