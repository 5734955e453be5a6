/** What the field rules derive, said without the rules. */
module Languages {
  import opened Wrappers
  import opened Strings
  import opened Calendar
  import opened Timestamps
  import opened Abnf
  import opened Rfc3986
  import opened Iso8601

  // ------------------------------------------------- classes of single characters

  const NO_CAPTURES: seq<Capture> := []

  /** `r` derives only texts of one character. */
  predicate IsClass(r: Rule) {
    r.Range? || (r.Alt? && IsClass(r.left) && IsClass(r.right))
  }

  predicate Admits(r: Rule, ch: char)
    requires IsClass(r)
  {
    match r
    case Range(lo, hi) => lo <= ch <= hi
    case Alt(a, b) => Admits(a, ch) || Admits(b, ch)
  }

  lemma {:induction false} ClassMeans(r: Rule, s: string, c: seq<Capture>)
    requires IsClass(r)
    ensures Means(r, s, c) <==> |s| == 1 && Admits(r, s[0]) && c == []
  {
    match r
    case Range(_, _) =>
    case Alt(a, b) =>
      ClassMeans(a, s, c);
      ClassMeans(b, s, c);
  }

  ghost predicate AllAdmitted(r: Rule, s: string)
    requires IsClass(r)
  {
    forall ch <- s :: Admits(r, ch)
  }

  lemma {:induction false} ClassTimesElim(r: Rule, n: nat, s: string)
    requires IsClass(r) && Times(r, n, s, [])
    ensures |s| == n && AllAdmitted(r, s)
  {
    if n > 0 {
      var s1, c1, s2, c2 := TimesElim(r, n, s, []);
      NoParts(c1, c2);
      ClassMeans(r, s1, []);
      ClassTimesElim(r, n - 1, s2);
    }
  }

  lemma NoParts(c1: seq<Capture>, c2: seq<Capture>)
    requires c1 + c2 == []
    ensures c1 == [] && c2 == []
  {
    assert |c1| + |c2| == |c1 + c2|;
  }

  lemma FirstOf(s: string)
    requires s != ""
    ensures [s[0]] + s[1..] == s && NO_CAPTURES + NO_CAPTURES == []
  {
  }

  lemma {:induction false} ClassTimesIntro(r: Rule, s: string)
    requires IsClass(r) && AllAdmitted(r, s)
    ensures Times(r, |s|, s, [])
  {
    if s != "" {
      ClassMeans(r, [s[0]], []);
      ClassTimesIntro(r, s[1..]);
      TimesStep(r, |s| - 1, [s[0]], [], s[1..], []);
      FirstOf(s);
    }
  }

  /** Repetition of a class, between bounds: all that counts is the length and the characters. */
  lemma ClassRepeat(r: Rule, min: nat, max: Option<nat>, s: string)
    requires IsClass(r)
    ensures Means(Repeat(min, max, r), s, []) <==> InBounds(|s|, min, max) && forall ch <- s :: Admits(r, ch)
  {
    if Means(Repeat(min, max, r), s, []) {
      var n: nat :| InBounds(n, min, max) && Times(r, n, s, []);
      ClassTimesElim(r, n, s);
    }
    if AllAdmitted(r, s) {
      ClassTimesIntro(r, s);
    }
  }

  lemma DigitsMean(n: nat, s: string)
    ensures Means(Digits(n), s, []) <==> |s| == n && AllDigits(s)
  {
    ClassRepeat(Digit(), n, Some(n), s);
  }

  // ------------------------------------------------- DecOctet: the canonical decimals 0-255

  lemma {:induction false} ShortDecimals(n: nat)
    requires n < 1000
    ensures n < 10 ==> Decimal(n) == [DigitChar(n)]
    ensures 10 <= n < 100 ==> Decimal(n) == [DigitChar(n / 10), DigitChar(n % 10)]
    ensures 100 <= n ==> Decimal(n) == [DigitChar(n / 100), DigitChar(n / 10 % 10), DigitChar(n % 10)]
  {
    if n >= 100 {
      assert Decimal(n / 10) == Decimal(n / 10 / 10) + [DigitChar(n / 10 % 10)];
    }
  }

  function Octet3(): Rule { Cat(Char('1'), Exactly(2, Digit())) }
  function Octet4(): Rule { Cat(Char('2'), Cat(Range('0', '4'), Digit())) }
  function Octet5(): Rule { Cat(Text("25"), Range('0', '5')) }

  lemma {:induction false} TwoChars(a: Rule, b: Rule, s: string)
    requires IsClass(a) && IsClass(b)
    ensures Means(Cat(a, b), s, []) <==> |s| == 2 && Admits(a, s[0]) && Admits(b, s[1])
  {
    if Means(Cat(a, b), s, []) {
      var s1, c1, s2, c2 := CatElim(a, b, s, []);
      ClassMeans(a, s1, c1);
      ClassMeans(b, s2, c2);
    }
    if |s| == 2 && Admits(a, s[0]) && Admits(b, s[1]) {
      ClassMeans(a, [s[0]], []);
      ClassMeans(b, [s[1]], []);
      CatIntro(a, b, [s[0]], [], [s[1]], []);
      assert [s[0]] + [s[1]] == s && NO_CAPTURES + NO_CAPTURES == [];
    }
  }

  lemma {:induction false} FirstThen(a: Rule, b: Rule, s: string)
    requires IsClass(a) && Keyless(b)
    ensures Means(Cat(a, b), s, []) <==> s != "" && Admits(a, s[0]) && Means(b, s[1..], [])
  {
    if Means(Cat(a, b), s, []) {
      var s1, c1, s2, c2 := CatElim(a, b, s, []);
      ClassMeans(a, s1, c1);
      assert s[1..] == s2 && c2 == [];
    }
    if s != "" && Admits(a, s[0]) && Means(b, s[1..], []) {
      ClassMeans(a, s[..1], []);
      CatIntro(a, b, s[..1], [], s[1..], []);
      assert s[..1] + s[1..] == s && NO_CAPTURES + NO_CAPTURES == [];
    }
  }

  predicate IsOctet2(s: string) { |s| == 2 && '1' <= s[0] <= '9' && IsDigit(s[1]) }
  predicate IsOctet3(s: string) { |s| == 3 && s[0] == '1' && IsDigit(s[1]) && IsDigit(s[2]) }
  predicate IsOctet4(s: string) { |s| == 3 && s[0] == '2' && '0' <= s[1] <= '4' && IsDigit(s[2]) }
  predicate IsOctet5(s: string) { |s| == 3 && s[0] == '2' && s[1] == '5' && '0' <= s[2] <= '5' }

  predicate IsOctetText(s: string) {
    (|s| == 1 && IsDigit(s[0])) || IsOctet2(s) || IsOctet3(s) || IsOctet4(s) || IsOctet5(s)
  }

  lemma {:induction false} Octet3Shape(s: string)
    ensures Means(Octet3(), s, []) <==> IsOctet3(s)
  {
    FirstThen(Char('1'), Exactly(2, Digit()), s);
    if s != "" {
      DigitsMean(2, s[1..]);
    }
  }

  lemma {:induction false} ThreeChars(a: Rule, b: Rule, c: Rule, s: string)
    requires IsClass(a) && IsClass(b) && IsClass(c)
    ensures Means(Cat(a, Cat(b, c)), s, []) <==> |s| == 3 && Admits(a, s[0]) && Admits(b, s[1]) && Admits(c, s[2])
  {
    ClassKeyless(b);
    ClassKeyless(c);
    FirstThen(a, Cat(b, c), s);
    if s != "" {
      TwoChars(b, c, s[1..]);
    }
  }

  lemma {:induction false} ClassKeyless(r: Rule)
    requires IsClass(r)
    ensures Keyless(r)
  {
    match r
    case Range(_, _) =>
    case Alt(a, b) =>
      ClassKeyless(a);
      ClassKeyless(b);
  }

  lemma {:induction false} Octet4Shape(s: string)
    ensures Means(Octet4(), s, []) <==> IsOctet4(s)
  {
    ThreeChars(Char('2'), Range('0', '4'), Digit(), s);
  }

  lemma {:induction false} Octet5Shape(s: string)
    ensures Means(Octet5(), s, []) <==> IsOctet5(s)
  {
    if Means(Octet5(), s, []) {
      var rest := LiteralFirst(Text("25"), Range('0', '5'), s, []);
      assert s == "25" + rest;
    }
    if IsOctet5(s) {
      LiteralFirstIntro(Text("25"), Range('0', '5'), s[2..], []);
      assert "25" + s[2..] == s;
    }
  }

  lemma {:induction false} DecOctetShape(s: string)
    ensures Means(DecOctet(), s, []) <==> IsOctetText(s)
  {
    ClassMeans(Digit(), s, []);
    TwoChars(Range('1', '9'), Digit(), s);
    Octet3Shape(s);
    Octet4Shape(s);
    Octet5Shape(s);
  }

  lemma OctetValue(s: string) returns (n: nat)
    requires IsOctetText(s)
    ensures n <= 255 && s == Decimal(n)
  {
    if |s| == 1 {
      n := DigitValue(s[0]);
    } else if |s| == 2 {
      n := 10 * DigitValue(s[0]) + DigitValue(s[1]);
    } else {
      n := ThreeDigits(DigitValue(s[0]), DigitValue(s[1]), DigitValue(s[2]));
      assert s == [DigitChar(DigitValue(s[0])), DigitChar(DigitValue(s[1])), DigitChar(DigitValue(s[2]))];
      return;
    }
    ShortDecimals(n);
  }

  lemma ThreeDigits(a: nat, b: nat, c: nat) returns (n: nat)
    requires 0 < a <= 9 && b <= 9 && c <= 9
    ensures n == 100 * a + 10 * b + c && Decimal(n) == [DigitChar(a), DigitChar(b), DigitChar(c)]
  {
    n := 100 * a + 10 * b + c;
    assert n / 10 == 10 * a + b;
    ShortDecimals(n);
  }

  lemma OctetText(n: nat)
    requires n <= 255
    ensures IsOctetText(Decimal(n))
  {
    ShortDecimals(n);
  }

  ghost predicate IsCanonicalOctet(s: string) {
    exists n: nat :: n <= 255 && s == Decimal(n)
  }

  lemma OctetTextCanonical(s: string)
    ensures IsOctetText(s) <==> IsCanonicalOctet(s)
  {
    if IsOctetText(s) {
      var n := OctetValue(s);
    }
    if IsCanonicalOctet(s) {
      var n: nat :| n <= 255 && s == Decimal(n);
      OctetText(n);
    }
  }

  /** `DecOctet` derives exactly the decimals of 0 to 255 without leading zeros. */
  lemma {:induction false} DecOctetExact(s: string)
    ensures InLanguage(DecOctet(), s) <==> IsCanonicalOctet(s)
  {
    OctetTextCanonical(s);
    DecOctetShape(s);
    if InLanguage(DecOctet(), s) {
      var c :| Means(DecOctet(), s, c);
      KeylessSound(DecOctet(), s, c);
    }
  }

  // ------------------------------------------------- hosts

  ghost predicate HostChars(s: string) { forall ch <- s :: IsDigit(ch) || ch == '.' }

  lemma HostCharsConcat(a: string, b: string)
    requires HostChars(a) && HostChars(b)
    ensures HostChars(a + b)
  {
  }

  lemma DotElim(a: Rule, rest: Rule, s: string, c: seq<Capture>)
    returns (s1: string, c1: seq<Capture>, s2: string, c2: seq<Capture>)
    requires Means(Cat(a, Cat(Char('.'), rest)), s, c)
    ensures s == s1 + ("." + s2) && Means(a, s1, c1) && Means(rest, s2, c2)
  {
    var s3, c3;
    s1, c1, s3, c3 := CatElim(a, Cat(Char('.'), rest), s, c);
    s2 := LiteralFirst(Char('.'), rest, s3, c3);
    c2 := c3;
  }

  lemma OctetChars(s: string, c: seq<Capture>)
    requires Means(DecOctet(), s, c)
    ensures HostChars(s)
  {
    KeylessSound(DecOctet(), s, c);
    DecOctetShape(s);
    if |s| == 3 {
      assert s == [s[0], s[1], s[2]];
    } else if |s| == 2 {
      assert s == [s[0], s[1]];
    } else {
      assert s == [s[0]];
    }
  }

  lemma AddressChars(s: string, c: seq<Capture>)
    requires Means(Ipv4Address(), s, c)
    ensures HostChars(s)
  {
    var rest1 := Cat(DecOctet(), Cat(Char('.'), Cat(DecOctet(), Cat(Char('.'), DecOctet()))));
    var rest2 := Cat(DecOctet(), Cat(Char('.'), DecOctet()));
    var s1, c1, r1, d1 := DotElim(DecOctet(), rest1, s, c);
    var s2, c2, r2, d2 := DotElim(DecOctet(), rest2, r1, d1);
    var s3, c3, s4, c4 := DotElim(DecOctet(), DecOctet(), r2, d2);
    OctetChars(s1, c1);
    OctetChars(s2, c2);
    OctetChars(s3, c3);
    OctetChars(s4, c4);
    HostCharsConcat(s3, "." + s4);
    HostCharsConcat(s2, "." + r2);
    HostCharsConcat(s1, "." + r1);
  }

  lemma {:induction false} StarOfChars(body: Rule, s: string)
    requires forall ch <- s :: Means(body, [ch], [])
    ensures Times(body, |s|, s, [])
  {
    if s != "" {
      StarOfChars(body, s[1..]);
      TimesStep(body, |s| - 1, [s[0]], [], s[1..], []);
      assert [s[0]] + s[1..] == s && NO_CAPTURES + NO_CAPTURES == [];
    }
  }

  lemma HostCharsAreRegName(s: string)
    requires HostChars(s)
    ensures Means(RegName(), s, [])
  {
    var body := Alt(Unreserved(), Alt(PctEncoded(), SubDelims()));
    forall ch <- s ensures Means(body, [ch], []) {
      ClassMeans(Unreserved(), [ch], []);
    }
    StarOfChars(body, s);
    assert InBounds(|s|, 0, None);
  }

  lemma {:induction false} AltLanguage(a: Rule, b: Rule, s: string)
    ensures InLanguage(Alt(a, b), s) <==> InLanguage(a, s) || InLanguage(b, s)
  {
    if InLanguage(a, s) {
      var c :| Means(a, s, c);
      EitherMeans(a, b, s, c);
    }
    if InLanguage(b, s) {
      var c :| Means(b, s, c);
      EitherMeans(a, b, s, c);
    }
    if InLanguage(Alt(a, b), s) {
      var c :| Means(Alt(a, b), s, c);
      EitherMeans(a, b, s, c);
    }
  }

  lemma EitherMeans(a: Rule, b: Rule, s: string, c: seq<Capture>)
    ensures Means(Alt(a, b), s, c) <==> Means(a, s, c) || Means(b, s, c)
  {
  }

  /** Every IPv4 address is a registered name, so the first alternative of `Host` adds nothing. */
  lemma HostIsRegName(s: string)
    ensures InLanguage(Ipv4Address(), s) ==> InLanguage(RegName(), s)
    ensures InLanguage(Host(), s) <==> InLanguage(RegName(), s)
  {
    if InLanguage(Ipv4Address(), s) {
      var c :| Means(Ipv4Address(), s, c);
      AddressChars(s, c);
      HostCharsAreRegName(s);
    }
    AltLanguage(Ipv4Address(), RegName(), s);
  }

  // ------------------------------------------------- an origin is a URI

  function Paths(): Rule { Alt(PathAbEmpty(), Alt(PathAbsolute(), Alt(PathRootless(), PathEmpty()))) }
  function UriEnd(): Rule { Cat(Optional(Cat(Char('?'), Query())), Optional(Cat(Char('#'), Fragment()))) }

  /** `scheme://authority`, the form of a browser's origin, is a URI. */
  lemma OriginIsUri(scheme: string, authority: string)
    requires InLanguage(Scheme(), scheme) && InLanguage(Authority(), authority)
    ensures InLanguage(Uri(), scheme + "://" + authority)
  {
    var c :| Means(Scheme(), scheme, c);
    var d :| Means(Authority(), authority, d);
    EmptyEnds();
    HierPartIntro(authority, d);
    UriOfHier(Scheme(), HierPart(), UriEnd(), scheme, c, "//" + authority, d);
    AuthorityText(scheme, authority);
  }

  lemma AuthorityText(scheme: string, authority: string)
    ensures scheme + (":" + ("//" + authority)) == scheme + "://" + authority
  {
  }

  lemma HierPartIntro(authority: string, d: seq<Capture>)
    requires Means(Authority(), authority, d)
    ensures Means(HierPart(), "//" + authority, d)
  {
    EmptyEnds();
    HierOfAuthority(Authority(), Paths(), authority, d);
  }

  lemma HierOfAuthority(a: Rule, p: Rule, authority: string, d: seq<Capture>)
    requires Means(a, authority, d) && Means(p, "", [])
    ensures Means(Cat(Text("//"), Cat(a, p)), "//" + authority, d)
  {
    AppendEmpty(a, p, authority, d);
    LiteralFirstIntro(Text("//"), Cat(a, p), authority, d);
  }

  lemma UriOfHier(s: Rule, h: Rule, e: Rule, scheme: string, c: seq<Capture>, hier: string, d: seq<Capture>)
    requires Means(s, scheme, c) && Means(h, hier, d) && Means(e, "", [])
    ensures Means(Cat(s, Cat(Char(':'), Cat(h, e))), scheme + (":" + hier), c + d)
  {
    AppendEmpty(h, e, hier, d);
    LiteralFirstIntro(Char(':'), Cat(h, e), hier, d);
    CatIntro(s, Cat(Char(':'), Cat(h, e)), scheme, c, ":" + hier, d);
  }

  lemma AppendEmpty(a: Rule, b: Rule, s: string, c: seq<Capture>)
    requires Means(a, s, c) && Means(b, "", [])
    ensures Means(Cat(a, b), s, c)
  {
    CatIntro(a, b, s, c, "", []);
    assert s + "" == s && c + [] == c;
  }

  lemma EmptyEnds()
    ensures Means(Paths(), "", []) && Means(UriEnd(), "", [])
  {
    assert Times(Cat(Char('/'), Segment()), 0, "", []) && InBounds(0, 0, None);
    assert Means(PathAbEmpty(), "", []);
    OptionalMeans(Cat(Char('?'), Query()), "", []);
    OptionalMeans(Cat(Char('#'), Fragment()), "", []);
    CatIntro(Optional(Cat(Char('?'), Query())), Optional(Cat(Char('#'), Fragment())), "", [], "", []);
    assert "" + "" == "" && NO_CAPTURES + NO_CAPTURES == [];
  }

  // ------------------------------------------------- the moments the client prints are date-times

  lemma TwoDigits(s: string)
    requires |s| == 2 && AllDigits(s)
    ensures Means(Digits(2), s, [])
  {
    DigitsMean(2, s);
  }

  lemma JoinEmptyCaptures(a: Rule, b: Rule, s: string, t: string)
    requires Means(a, s, []) && Means(b, t, [])
    ensures Means(Cat(a, b), s + t, [])
  {
    CatIntro(a, b, s, [], t, []);
    assert NO_CAPTURES + NO_CAPTURES == [];
  }

  lemma FullDateIntro(y: string, m: string, d: string)
    requires |y| == 4 && |m| == |d| == 2 && AllDigits(y) && AllDigits(m) && AllDigits(d)
    ensures Means(FullDate(), y + ("-" + (m + ("-" + d))), [])
  {
    DigitsMean(4, y);
    TwoDigits(m);
    TwoDigits(d);
    LiteralFirstIntro(Char('-'), Digits(2), d, []);
    JoinEmptyCaptures(Digits(2), Cat(Char('-'), Digits(2)), m, "-" + d);
    LiteralFirstIntro(Char('-'), Cat(Digits(2), Cat(Char('-'), Digits(2))), m + ("-" + d), []);
    JoinEmptyCaptures(Digits(4), Cat(Char('-'), Cat(Digits(2), Cat(Char('-'), Digits(2)))), y, "-" + (m + ("-" + d)));
  }

  lemma SecondsIntro(s: string, f: string)
    requires |s| == 2 && f != "" && AllDigits(s) && AllDigits(f)
    ensures Means(Cat(Digits(2), Optional(TimeSecfrac())), s + ("." + f), [])
  {
    TwoDigits(s);
    ClassRepeat(Digit(), 1, None, f);
    LiteralFirstIntro(Char('.'), Plus(Digit()), f, []);
    OptionalMeans(TimeSecfrac(), "." + f, []);
    JoinEmptyCaptures(Digits(2), Optional(TimeSecfrac()), s, "." + f);
  }

  lemma PartialTimeIntro(h: string, m: string, rest: string)
    requires |h| == |m| == 2 && AllDigits(h) && AllDigits(m)
    requires Means(Cat(Digits(2), Optional(TimeSecfrac())), rest, [])
    ensures Means(PartialTime(), h + (":" + (m + (":" + rest))), [])
  {
    var seconds := Cat(Digits(2), Optional(TimeSecfrac()));
    TwoDigits(h);
    TwoDigits(m);
    ColonPair(Digits(2), Digits(2), seconds, h, m, rest);
  }

  lemma ColonPair(a: Rule, b: Rule, c: Rule, h: string, m: string, rest: string)
    requires Means(a, h, []) && Means(b, m, []) && Means(c, rest, [])
    ensures Means(Cat(a, Cat(Char(':'), Cat(b, Cat(Char(':'), c)))), h + (":" + (m + (":" + rest))), [])
  {
    LiteralFirstIntro(Char(':'), c, rest, []);
    JoinEmptyCaptures(b, Cat(Char(':'), c), m, ":" + rest);
    LiteralFirstIntro(Char(':'), Cat(b, Cat(Char(':'), c)), m + (":" + rest), []);
    JoinEmptyCaptures(a, Cat(Char(':'), Cat(b, Cat(Char(':'), c))), h, ":" + (m + (":" + rest)));
  }

  lemma DateTimeIntro(date: string, time: string)
    requires Means(FullDate(), date, []) && Means(PartialTime(), time, [])
    ensures Means(DateTime(), date + ("T" + (time + "Z")), [])
  {
    ZuluIsOffset();
    JoinEmptyCaptures(PartialTime(), TimeOffset(), time, "Z");
    LiteralFirstIntro(Char('T'), FullTime(), time + "Z", []);
    JoinEmptyCaptures(FullDate(), Cat(Char('T'), FullTime()), date, "T" + (time + "Z"));
  }

  lemma ZuluIsOffset()
    ensures Means(TimeOffset(), "Z", [])
  {
    assert Means(Char('Z'), "Z", []);
  }

  lemma FieldText(c: char, n: nat, layout: seq<Piece>, values: seq<nat>)
    ensures PrintLayout(Then(c, layout), [n] + values) == [c] + (Pad(n, 2) + PrintLayout(layout, values))
  {
    var whole := Then(c, layout);
    assert whole[1..] == [Num(2)] + layout && whole[1..][1..] == layout && ([n] + values)[1..] == values;
  }

  lemma StampText(m: nat, d: nat, h: nat, i: nat, s: nat)
    ensures PrintLayout(AFTER_YEAR, Five(m, d, h, i, s))
         == "-" + (Pad(m, 2) + ("-" + (Pad(d, 2) + ("T" + (Pad(h, 2) + (":" + (Pad(i, 2) + (":" + Pad(s, 2)))))))))
  {
    FieldText(':', s, [], []);
    FieldText(':', i, Then(':', []), [s] + []);
    FieldText('T', h, Then(':', Then(':', [])), [i] + ([s] + []));
    FieldText('-', d, Then('T', Then(':', Then(':', []))), [h] + ([i] + ([s] + [])));
    FieldText('-', m, Then('-', Then('T', Then(':', Then(':', [])))), [d] + ([h] + ([i] + ([s] + []))));
    assert Pad(s, 2) + "" == Pad(s, 2);
  }

  lemma MomentText(y: string, m: string, d: string, h: string, i: string, s: string, f: string)
    ensures y + ("-" + (m + ("-" + (d + ("T" + (h + (":" + (i + (":" + s)))))))) + ("." + f + "Z"))
         == y + ("-" + (m + ("-" + d))) + ("T" + (h + (":" + (i + (":" + (s + ("." + f))))) + "Z"))
  {
  }

  /** The text of a moment in a four-digit year, cut where the grammar cuts it. */
  lemma DigitsAreDateTime(y: string, m: string, d: string, h: string, i: string, s: string, f: string)
    requires |y| == 4 && |m| == |d| == |h| == |i| == |s| == 2 && f != ""
    requires AllDigits(y) && AllDigits(m) && AllDigits(d) && AllDigits(h) && AllDigits(i) && AllDigits(s)
             && AllDigits(f)
    ensures Means(DateTime(),
                  y + ("-" + (m + ("-" + (d + ("T" + (h + (":" + (i + (":" + s)))))))) + ("." + f + "Z")), [])
  {
    FullDateIntro(y, m, d);
    SecondsIntro(s, f);
    PartialTimeIntro(h, i, s + ("." + f));
    DateTimeIntro(y + ("-" + (m + ("-" + d))), h + (":" + (i + (":" + (s + ("." + f))))));
    MomentText(y, m, d, h, i, s, f);
  }

  /** What `toISOString` prints belongs to the date-time rule exactly for four-digit years. */
  lemma IsoStringIsDateTime(millis: int)
    ensures InLanguage(DateTime(), IsoString(millis)) <==> 0 <= YearOfSeconds(millis / 1000) <= 9999
  {
    if 0 <= YearOfSeconds(millis / 1000) <= 9999 {
      IsoStringInside(millis);
    } else {
      if InLanguage(DateTime(), IsoString(millis)) {
        StartsWithDigit(IsoString(millis));
      }
    }
  }

  lemma IsoStringInside(millis: int)
    requires 0 <= YearOfSeconds(millis / 1000) <= 9999
    ensures Means(DateTime(), IsoString(millis), [])
  {
    var secs := millis / 1000;
    var date, clock := DateOf(secs / DAY), secs % DAY;
    var h, i, s := clock / 3600, clock / 60 % 60, clock % 60;
    StampText(date.month, date.day, h, i, s);
    DigitsAreDateTime(Pad(date.year, 4), Pad(date.month, 2), Pad(date.day, 2), Pad(h, 2), Pad(i, 2), Pad(s, 2),
                      Pad(millis % 1000, 3));
  }

  lemma StartsWithDigit(s: string)
    requires InLanguage(DateTime(), s)
    ensures s != "" && IsDigit(s[0])
  {
    var c :| Means(DateTime(), s, c);
    var s1, c1, s2, c2 := CatElim(FullDate(), Cat(Char('T'), FullTime()), s, c);
    var rest := Cat(Char('-'), Cat(Digits(2), Cat(Char('-'), Digits(2))));
    var s3, c3, s4, c4 := CatElim(Digits(4), rest, s1, c1);
    KeylessSound(Digits(4), s3, c3);
    DigitsMean(4, s3);
    assert s[0] == s3[0];
  }

  // ------------------------------------------------- nonces

  function HexChar(n: nat): char
    requires n < 16
  {
    if n < 10 then DigitChar(n) else ('a' as int + n - 10) as char
  }

  type Byte = b: nat | b < 256

  /** `hex.EncodeToString` */
  function HexEncode(bytes: seq<Byte>): string {
    if bytes == [] then "" else [HexChar(bytes[0] / 16), HexChar(bytes[0] % 16)] + HexEncode(bytes[1..])
  }

  lemma {:induction false} HexEncodeChars(bytes: seq<Byte>)
    ensures |HexEncode(bytes)| == 2 * |bytes| && forall ch <- HexEncode(bytes) :: IsDigit(ch) || 'a' <= ch <= 'f'
  {
    if bytes != [] {
      HexEncodeChars(bytes[1..]);
    }
  }
}
