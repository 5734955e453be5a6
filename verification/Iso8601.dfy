/** The date-time rules of RFC 3339 section 5.6 as the server builds them: only the shape, no ranges. */
module Iso8601 {
  import opened Abnf
  import opened Rfc3986

  function Digits(n: nat): Rule { Exactly(n, Digit()) }

  function FullDate(): Rule { Cat(Digits(4), Cat(Char('-'), Cat(Digits(2), Cat(Char('-'), Digits(2))))) }

  function TimeSecfrac(): Rule { Cat(Char('.'), Plus(Digit())) }

  function TimeNumOffset(): Rule { Cat(Alt(Char('+'), Char('-')), Cat(Digits(2), Cat(Char(':'), Digits(2)))) }

  function TimeOffset(): Rule { Alt(Char('Z'), TimeNumOffset()) }

  function PartialTime(): Rule {
    Cat(Digits(2), Cat(Char(':'), Cat(Digits(2), Cat(Char(':'), Cat(Digits(2), Optional(TimeSecfrac()))))))
  }

  function FullTime(): Rule { Cat(PartialTime(), TimeOffset()) }

  function DateTime(): Rule { Cat(FullDate(), Cat(Char('T'), FullTime())) }

  lemma PlainDateTime()
    ensures Plain(DateTime())
  {
    assert Plain(FullDate());
    assert Plain(TimeSecfrac());
    assert Plain(PartialTime());
    assert Plain(TimeOffset());
  }
}
