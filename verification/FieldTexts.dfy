/** The field rules of the message, said without the rules: which characters stand where. */
module FieldTexts {
  import opened Wrappers
  import opened Strings
  import opened Abnf
  import opened Rfc3986
  import opened Iso8601
  import opened Eip4361
  import opened Languages
  import opened UriForms
  import opened DateTimes
  import opened TimeTexts

  // ------------------------------------------------- the characters

  const LETTERS: set<char> := CAPITAL_LETTERS + SMALL_LETTERS
  const ALPHANUMERIC: set<char> := LETTERS + DIGITS
  const HEX_DIGITS: set<char> := DIGITS + {'A', 'B', 'C', 'D', 'E', 'F'} + {'a', 'b', 'c', 'd', 'e', 'f'}
  const UNRESERVED: set<char> := ALPHANUMERIC + {'-', '_', '.', '~'}
  const GEN_DELIMS: set<char> := {':', '/', '?', '#', '[', ']', '@'}
  const SUB_DELIMS: set<char> := {'!', '$', '&', '\\', '(', ')', '*', '+', ',', ';', '='}
  const HOST_CHARS: set<char> := UNRESERVED + SUB_DELIMS
  const PATH_CHARS: set<char> := HOST_CHARS + {':', '@'}

  // ------------------------------------------------- the texts

  predicate IsChainId(s: string) { s != "" && forall c <- s :: c in ALPHANUMERIC || c == '-' }

  predicate IsNonce(s: string) { |s| == 8 && forall c <- s :: c in ALPHANUMERIC }

  /** The `1` behind the prefix is at place `i`. */
  predicate IsAddressAt(s: string, i: nat) {
    && 0 < i < |s| - 1 && s[i] == '1' && (forall c <- s[..i] :: c in LETTERS)
        && forall c <- s[i + 1..] :: c in ALPHANUMERIC
  }

  predicate IsAddress(s: string) { exists i | 0 <= i < |s| :: IsAddressAt(s, i) }

  predicate IsStatement(s: string) {
    forall c <- s :: c in UNRESERVED || c in GEN_DELIMS || c in SUB_DELIMS || c == ' '
  }

  /** Every character is one of `chars`, or a percent sign in front of two digits of `hex`. */
  predicate IsEncoded(s: string, chars: set<char>, hex: set<char>) {
    forall i | 0 <= i < |s| :: IsEncodedAt(s, i, chars, hex)
  }

  predicate IsEncodedAt(s: string, i: nat, chars: set<char>, hex: set<char>)
    requires i < |s|
  {
    s[i] in chars || (s[i] == '%' && i + 2 < |s| && s[i + 1] in hex && s[i + 2] in hex)
  }

  predicate IsRequestId(s: string) { IsEncoded(s, PATH_CHARS, HEX_DIGITS) }

  predicate IsScheme(s: string) {
    s != "" && s[0] in LETTERS && forall c <- s[1..] :: c in ALPHANUMERIC || c == '+' || c == '-' || c == '.'
  }

  predicate IsHost(s: string) { IsEncoded(s, HOST_CHARS, HEX_DIGITS) }

  predicate IsUser(s: string) { s != "" && IsEncoded(s, HOST_CHARS + {':'}, HEX_DIGITS) }

  /** A user with its sign, a host and a port with its colon; user and port may be missing. */
  predicate IsAuthorityText(s: string, user: string, host: string, port: string) {
    && s == user + (host + port) && IsHost(host)
    && (user == "" || (user[|user| - 1] == '@' && IsUser(user[..|user| - 1])))
    && (port == "" || (port[0] == ':' && forall c <- port[1..] :: c in DIGITS))
  }

  ghost predicate IsAuthority(s: string) {
    exists user, host, port :: IsAuthorityText(s, user, host, port)
  }

  predicate IsPath(s: string) { IsEncoded(s, PATH_CHARS + {'/'}, HEX_DIGITS) }

  /** Nothing, or the sign `c` and what it announces. */
  predicate IsAnnounced(c: char, s: string) {
    s == "" || (s[0] == c && IsEncoded(s[1..], PATH_CHARS + {'/', '?'}, HEX_DIGITS))
  }

  ghost predicate IsEnd(s: string) {
    exists query, fragment :: s == query + fragment && IsAnnounced('?', query) && IsAnnounced('#', fragment)
  }

  ghost predicate IsUriText(s: string, scheme: string, authority: string, path: string, end: string) {
    && s == scheme + ("://" + (authority + (path + end)))
    && IsScheme(scheme) && IsAuthority(authority) && IsPath(path) && IsEnd(end)
  }

  ghost predicate IsUri(s: string) {
    exists scheme, authority, path, end :: IsUriText(s, scheme, authority, path, end)
  }

  /** Every field is a text of its kind, character by character. */
  ghost predicate FieldsFit(f: Fields) {
    && IsAuthority(f.authority) && IsAddress(f.address) && (f.statement.Some? ==> IsStatement(f.statement.value))
    && IsUri(f.uri) && IsChainId(f.chainId) && IsNonce(f.nonce) && IsDateTime(f.issuedAt)
    && (f.expirationAt.Some? ==> IsDateTime(f.expirationAt.value))
    && (f.notBefore.Some? ==> IsDateTime(f.notBefore.value))
    && (f.requestId.Some? ==> IsRequestId(f.requestId.value))
    && (f.resources.Some? ==> forall u <- f.resources.value :: IsUri(u))
  }

  // ------------------------------------------------- classes

  /** The rule derives exactly the texts of one of these characters. */
  ghost predicate ClassIs(r: Rule, chars: set<char>) {
    IsClass(r) && forall c :: Admits(r, c) <==> c in chars
  }

  lemma CharIs(c: char)
    ensures ClassIs(Char(c), {c})
  {
  }

  lemma EitherIs(a: Rule, b: Rule, chars: set<char>, more: set<char>)
    requires ClassIs(a, chars) && ClassIs(b, more)
    ensures ClassIs(Alt(a, b), chars + more)
  {
    forall c ensures Admits(Alt(a, b), c) <==> c in chars + more {
      assert Admits(Alt(a, b), c) <==> Admits(a, c) || Admits(b, c);
    }
  }

  lemma LettersAre()
    ensures ClassIs(Alpha(), LETTERS) && ClassIs(Digit(), DIGITS) && ClassIs(AlphaNum(), ALPHANUMERIC)
  {
    forall c ensures Admits(Range('A', 'Z'), c) <==> c in CAPITAL_LETTERS { CapitalListed(c); }
    forall c ensures Admits(Range('a', 'z'), c) <==> c in SMALL_LETTERS { SmallListed(c); }
    forall c ensures Admits(Digit(), c) <==> c in DIGITS { DigitListed(c); }
    EitherIs(Range('A', 'Z'), Range('a', 'z'), CAPITAL_LETTERS, SMALL_LETTERS);
    EitherIs(Alpha(), Digit(), LETTERS, DIGITS);
  }

  lemma ThirdIs(a: Rule, b: Rule, c: Rule, x: set<char>, y: set<char>, z: set<char>)
    requires ClassIs(a, x) && ClassIs(b, y) && ClassIs(c, z)
    ensures ClassIs(Alt(a, Alt(b, c)), x + y + z)
  {
    EitherIs(b, c, y, z);
    EitherIs(a, Alt(b, c), x, y + z);
    assert x + (y + z) == x + y + z;
  }

  lemma HexLettersAre()
    ensures ClassIs(Range('A', 'F'), {'A', 'B', 'C', 'D', 'E', 'F'})
    ensures ClassIs(Range('a', 'f'), {'a', 'b', 'c', 'd', 'e', 'f'})
  {
  }

  lemma HexDigitsAre()
    ensures ClassIs(HexDig(), HEX_DIGITS)
  {
    LettersAre();
    HexLettersAre();
    ThirdIs(Digit(), Range('A', 'F'), Range('a', 'f'), DIGITS, {'A', 'B', 'C', 'D', 'E', 'F'},
            {'a', 'b', 'c', 'd', 'e', 'f'});
  }

  lemma MarksAre()
    ensures ClassIs(Alt(Char('-'), Alt(Char('_'), Alt(Char('.'), Char('~')))), {'-', '_', '.', '~'})
  {
    forall c ensures Admits(Alt(Char('-'), Alt(Char('_'), Alt(Char('.'), Char('~')))), c)
        <==> c in {'-', '_', '.', '~'} {
      CharOr('.', Char('~'), c);
      CharOr('_', Alt(Char('.'), Char('~')), c);
      CharOr('-', Alt(Char('_'), Alt(Char('.'), Char('~'))), c);
    }
  }

  lemma UnreservedIs()
    ensures ClassIs(Unreserved(), UNRESERVED)
  {
    LettersAre();
    MarksAre();
    EitherIs(AlphaNum(), Alt(Char('-'), Alt(Char('_'), Alt(Char('.'), Char('~')))), ALPHANUMERIC, {'-', '_', '.', '~'});
  }

  lemma SubDelimsAre()
    ensures ClassIs(SubDelims(), SUB_DELIMS)
  {
    forall c ensures IsClass(SubDelims()) && (Admits(SubDelims(), c) <==> c in SUB_DELIMS) {
      DelimsAdmit(c);
    }
    DelimsAdmit('!');
  }

  lemma GenDelimsAre()
    ensures ClassIs(GenDelims(), GEN_DELIMS)
  {
    forall c ensures IsClass(GenDelims()) && (Admits(GenDelims(), c) <==> c in GEN_DELIMS) {
      var last := Alt(Char('['), Alt(Char(']'), Char('@')));
      CharOr(']', Char('@'), c);
      CharOr('[', Alt(Char(']'), Char('@')), c);
      CharOr('#', last, c);
      CharOr('?', Alt(Char('#'), last), c);
      CharOr('/', Alt(Char('?'), Alt(Char('#'), last)), c);
      CharOr(':', Alt(Char('/'), Alt(Char('?'), Alt(Char('#'), last))), c);
    }
  }

  lemma KeylessIn(r: Rule, s: string)
    requires Keyless(r)
    ensures InLanguage(r, s) <==> Means(r, s, [])
  {
    if InLanguage(r, s) {
      KeylessMeans(r, s);
    }
  }

  lemma RepeatIs(r: Rule, chars: set<char>, min: nat, max: Option<nat>, s: string)
    requires ClassIs(r, chars)
    ensures InLanguage(Repeat(min, max, r), s) <==> InBounds(|s|, min, max) && forall c <- s :: c in chars
  {
    ClassKeyless(r);
    KeylessIn(Repeat(min, max, r), s);
    ClassRepeat(r, min, max, s);
  }

  // ------------------------------------------------- percent-encoded texts

  predicate IsTriple(s: string, hex: set<char>) { |s| == 3 && s[0] == '%' && s[1] in hex && s[2] in hex }

  /** One character, or three that stand for one. */
  predicate IsStep(s: string, chars: set<char>, hex: set<char>) { (|s| == 1 && s[0] in chars) || IsTriple(s, hex) }

  ghost predicate StepIs(body: Rule, chars: set<char>, hex: set<char>) {
    Keyless(body) && forall s :: Means(body, s, []) <==> IsStep(s, chars, hex)
  }

  ghost predicate TripleIs(r: Rule, hex: set<char>) { Keyless(r) && forall s :: Means(r, s, []) <==> IsTriple(s, hex) }

  lemma TripleOf(a: Rule, hex: set<char>)
    requires ClassIs(a, hex)
    ensures TripleIs(Cat(Char('%'), Cat(a, a)), hex)
  {
    ClassKeyless(a);
    forall s ensures Means(Cat(Char('%'), Cat(a, a)), s, []) <==> IsTriple(s, hex) {
      ThreeChars(Char('%'), a, a, s);
    }
  }

  lemma PctEncodedIs()
    ensures TripleIs(PctEncoded(), HEX_DIGITS)
  {
    HexDigitsAre();
    TripleOf(HexDig(), HEX_DIGITS);
  }

  lemma StepOf(a: Rule, triple: Rule, b: Rule, chars: set<char>, more: set<char>, hex: set<char>)
    requires ClassIs(a, chars) && TripleIs(triple, hex) && ClassIs(b, more)
    ensures StepIs(Alt(a, Alt(triple, b)), chars + more, hex)
  {
    ClassKeyless(a);
    ClassKeyless(b);
    forall s ensures Means(Alt(a, Alt(triple, b)), s, []) <==> IsStep(s, chars + more, hex) {
      ClassMeans(a, s, []);
      ClassMeans(b, s, []);
      EitherMeans(triple, b, s, []);
      EitherMeans(a, Alt(triple, b), s, []);
    }
  }

  lemma StepMore(body: Rule, b: Rule, chars: set<char>, more: set<char>, hex: set<char>)
    requires StepIs(body, chars, hex) && ClassIs(b, more)
    ensures StepIs(Alt(body, b), chars + more, hex)
  {
    ClassKeyless(b);
    forall s ensures Means(Alt(body, b), s, []) <==> IsStep(s, chars + more, hex) {
      ClassMeans(b, s, []);
      EitherMeans(body, b, s, []);
    }
  }

  lemma EncodedConcat(first: string, rest: string, chars: set<char>, hex: set<char>)
    requires hex <= chars && IsStep(first, chars, hex) && IsEncoded(rest, chars, hex)
    ensures IsEncoded(first + rest, chars, hex)
  {
    var s := first + rest;
    forall i | 0 <= i < |s| ensures IsEncodedAt(s, i, chars, hex) {
      if i >= |first| {
        assert IsEncodedAt(rest, i - |first|, chars, hex);
      }
    }
  }

  lemma EncodedRest(s: string, n: nat, chars: set<char>, hex: set<char>)
    requires n <= |s| && IsEncoded(s, chars, hex)
    ensures IsEncoded(s[n..], chars, hex)
  {
    forall i | 0 <= i < |s[n..]| ensures IsEncodedAt(s[n..], i, chars, hex) {
      assert IsEncodedAt(s, n + i, chars, hex);
    }
  }

  lemma {:induction false} TimesEncoded(body: Rule, chars: set<char>, hex: set<char>, n: nat, s: string)
    requires StepIs(body, chars, hex) && hex <= chars && Times(body, n, s, [])
    ensures IsEncoded(s, chars, hex) && (n > 0 ==> s != "")
  {
    if n > 0 {
      var s1, c1, s2, c2 := TimesElim(body, n, s, []);
      NoParts(c1, c2);
      TimesEncoded(body, chars, hex, n - 1, s2);
      EncodedConcat(s1, s2, chars, hex);
    }
  }

  /** The first step of an encoded text. */
  lemma FirstStep(s: string, chars: set<char>, hex: set<char>) returns (n: nat)
    requires s != "" && IsEncoded(s, chars, hex)
    ensures 0 < n <= |s| && IsStep(s[..n], chars, hex) && IsEncoded(s[n..], chars, hex)
  {
    assert IsEncodedAt(s, 0, chars, hex);
    n := if s[0] in chars then 1 else 3;
    EncodedRest(s, n, chars, hex);
  }

  lemma OneMoreTime(body: Rule, n: nat, s: string, k: nat)
    requires k <= |s| && Means(body, s[..k], []) && Times(body, n, s[k..], [])
    ensures Times(body, n + 1, s, [])
  {
    TimesStep(body, n, s[..k], [], s[k..], []);
    assert s[..k] + s[k..] == s && NO_CAPTURES + NO_CAPTURES == [];
  }

  lemma {:induction false} EncodedTimes(body: Rule, chars: set<char>, hex: set<char>, s: string) returns (n: nat)
    requires StepIs(body, chars, hex) && IsEncoded(s, chars, hex)
    ensures Times(body, n, s, [])
    decreases |s|
  {
    if s == "" {
      n := 0;
    } else {
      var k := FirstStep(s, chars, hex);
      var m := EncodedTimes(body, chars, hex, s[k..]);
      OneMoreTime(body, m, s, k);
      n := m + 1;
    }
  }

  lemma EncodedIs(body: Rule, chars: set<char>, hex: set<char>, s: string)
    requires StepIs(body, chars, hex) && hex <= chars
    ensures InLanguage(Star(body), s) <==> IsEncoded(s, chars, hex)
    ensures InLanguage(Plus(body), s) <==> s != "" && IsEncoded(s, chars, hex)
  {
    KeylessIn(Star(body), s);
    KeylessIn(Plus(body), s);
    if IsEncoded(s, chars, hex) {
      var n := EncodedTimes(body, chars, hex, s);
      assert InBounds(n, 0, None) && (s != "" ==> InBounds(n, 1, None));
    }
    if Means(Star(body), s, []) {
      var n: nat :| InBounds(n, 0, None) && Times(body, n, s, []);
      TimesEncoded(body, chars, hex, n, s);
    }
    if Means(Plus(body), s, []) {
      var n: nat :| InBounds(n, 1, None) && Times(body, n, s, []);
      TimesEncoded(body, chars, hex, n, s);
    }
  }

  // ------------------------------------------------- the fields of one rule

  /** One or more letters, letters or digits, and dashes. */
  lemma ChainIdExact(s: string)
    ensures InLanguage(ChainIdRule(), s) <==> IsChainId(s)
  {
    LettersAre();
    CharIs('-');
    EitherIs(AlphaNum(), Char('-'), ALPHANUMERIC, {'-'});
    RepeatIs(Alt(AlphaNum(), Char('-')), ALPHANUMERIC + {'-'}, 1, None, s);
  }

  lemma NonceExact(s: string)
    ensures InLanguage(NonceRule(), s) <==> IsNonce(s)
  {
    LettersAre();
    RepeatIs(AlphaNum(), ALPHANUMERIC, 8, Some(8), s);
  }

  lemma AddressOut(a: Rule, b: Rule, chars: set<char>, more: set<char>, s: string) returns (i: nat)
    requires ClassIs(a, chars) && ClassIs(b, more) && InLanguage(Cat(Plus(a), Cat(Char('1'), Plus(b))), s)
    ensures 0 < i < |s| - 1 && s[i] == '1' && (forall c <- s[..i] :: c in chars) && forall c <- s[i + 1..] :: c in more
  {
    var prefix, rest := CatOut(Plus(a), Cat(Char('1'), Plus(b)), s);
    var one, tail := CatOut(Char('1'), Plus(b), rest);
    LiteralIn(Char('1'), one);
    RepeatIs(a, chars, 1, None, prefix);
    RepeatIs(b, more, 1, None, tail);
    i := |prefix|;
    assert s[..i] == prefix && s[i + 1..] == tail;
  }

  lemma AddressIn(a: Rule, b: Rule, chars: set<char>, more: set<char>, s: string, i: nat)
    requires ClassIs(a, chars) && ClassIs(b, more) && 0 < i < |s| - 1 && s[i] == '1'
    requires (forall c <- s[..i] :: c in chars) && forall c <- s[i + 1..] :: c in more
    ensures InLanguage(Cat(Plus(a), Cat(Char('1'), Plus(b))), s)
  {
    RepeatIs(a, chars, 1, None, s[..i]);
    RepeatIs(b, more, 1, None, s[i + 1..]);
    LiteralIn(Char('1'), "1");
    CatIn(Char('1'), Plus(b), "1", s[i + 1..]);
    CatIn(Plus(a), Cat(Char('1'), Plus(b)), s[..i], "1" + s[i + 1..]);
    assert s[..i] + ("1" + s[i + 1..]) == s;
  }

  /** Letters, the separator, letters and digits; the check digits are not looked at. */
  lemma AddressExact(s: string)
    ensures InLanguage(AddressRule(), s) <==> IsAddress(s)
  {
    LettersAre();
    if InLanguage(AddressRule(), s) {
      var i := AddressOut(Alpha(), AlphaNum(), LETTERS, ALPHANUMERIC, s);
      assert IsAddressAt(s, i);
    }
    if IsAddress(s) {
      var i :| 0 <= i < |s| && IsAddressAt(s, i);
      AddressIn(Alpha(), AlphaNum(), LETTERS, ALPHANUMERIC, s, i);
    }
  }

  /** Any of the URI characters and blanks, but no percent sign. */
  lemma StatementExact(s: string)
    ensures InLanguage(StatementRule(), s) <==> IsStatement(s)
  {
    UnreservedIs();
    GenDelimsAre();
    SubDelimsAre();
    CharIs(' ');
    EitherIs(GenDelims(), SubDelims(), GEN_DELIMS, SUB_DELIMS);
    EitherIs(Reserved(), Sp(), GEN_DELIMS + SUB_DELIMS, {' '});
    EitherIs(Unreserved(), Alt(Reserved(), Sp()), UNRESERVED, GEN_DELIMS + SUB_DELIMS + {' '});
    StatementBy(Alt(Unreserved(), Alt(Reserved(), Sp())), UNRESERVED, GEN_DELIMS, SUB_DELIMS, s);
  }

  lemma StatementBy(r: Rule, x: set<char>, y: set<char>, z: set<char>, s: string)
    requires ClassIs(r, x + (y + z + {' '}))
    ensures InLanguage(Star(r), s) <==> forall c <- s :: c in x || c in y || c in z || c == ' '
  {
    RepeatIs(r, x + (y + z + {' '}), 0, None, s);
  }

  lemma HexAmong()
    ensures HEX_DIGITS <= ALPHANUMERIC
  {
  }

  lemma PcharIs()
    ensures StepIs(Pchar(), PATH_CHARS, HEX_DIGITS) && HEX_DIGITS <= PATH_CHARS
  {
    UnreservedIs();
    PctEncodedIs();
    SubDelimsAre();
    CharIs(':');
    CharIs('@');
    EitherIs(Char(':'), Char('@'), {':'}, {'@'});
    EitherIs(SubDelims(), Alt(Char(':'), Char('@')), SUB_DELIMS, {':'} + {'@'});
    StepOf(Unreserved(), PctEncoded(), Alt(SubDelims(), Alt(Char(':'), Char('@'))), UNRESERVED,
           SUB_DELIMS + ({':'} + {'@'}), HEX_DIGITS);
    SumOfThree(UNRESERVED, SUB_DELIMS, {':'} + {'@'});
    HexAmong();
  }

  lemma SumOfThree(x: set<char>, y: set<char>, z: set<char>)
    ensures x + (y + z) == x + y + z
  {
  }

  lemma RequestIdExact(s: string)
    ensures InLanguage(RequestIdRule(), s) <==> IsRequestId(s)
  {
    PcharIs();
    EncodedIs(Pchar(), PATH_CHARS, HEX_DIGITS, s);
  }

  // ------------------------------------------------- the parts of a URI

  lemma SchemeBy(a: Rule, b: Rule, x: set<char>, y: set<char>, s: string)
    requires ClassIs(a, x) && ClassIs(b, y)
    ensures InLanguage(Cat(a, Star(b)), s) <==> s != "" && s[0] in x && forall c <- s[1..] :: c in y
  {
    ClassKeyless(a);
    ClassKeyless(b);
    KeylessIn(Cat(a, Star(b)), s);
    FirstThen(a, Star(b), s);
    if s != "" {
      KeylessIn(Star(b), s[1..]);
      RepeatIs(b, y, 0, None, s[1..]);
    }
  }

  lemma SchemeCharsAre()
    ensures ClassIs(Alt(AlphaNum(), Alt(Char('+'), Alt(Char('-'), Char('.')))), ALPHANUMERIC + {'+', '-', '.'})
  {
    LettersAre();
    forall c ensures Admits(Alt(Char('+'), Alt(Char('-'), Char('.'))), c) <==> c in {'+', '-', '.'} {
      CharOr('-', Char('.'), c);
      CharOr('+', Alt(Char('-'), Char('.')), c);
    }
    EitherIs(AlphaNum(), Alt(Char('+'), Alt(Char('-'), Char('.'))), ALPHANUMERIC, {'+', '-', '.'});
  }

  /** A letter, then letters, digits, plus signs, dashes and points. */
  lemma SchemeExact(s: string)
    ensures InLanguage(Scheme(), s) <==> IsScheme(s)
  {
    LettersAre();
    SchemeCharsAre();
    SchemeBy(Alpha(), Alt(AlphaNum(), Alt(Char('+'), Alt(Char('-'), Char('.')))), LETTERS,
             ALPHANUMERIC + {'+', '-', '.'}, s);
  }

  lemma HostExact(s: string)
    ensures InLanguage(Host(), s) <==> IsHost(s)
  {
    HostIsRegName(s);
    UnreservedIs();
    PctEncodedIs();
    SubDelimsAre();
    StepOf(Unreserved(), PctEncoded(), SubDelims(), UNRESERVED, SUB_DELIMS, HEX_DIGITS);
    HexAmong();
    EncodedIs(Alt(Unreserved(), Alt(PctEncoded(), SubDelims())), HOST_CHARS, HEX_DIGITS, s);
  }

  lemma UserExact(s: string)
    ensures InLanguage(UserInfo(), s) <==> IsUser(s)
  {
    UnreservedIs();
    PctEncodedIs();
    SubDelimsAre();
    CharIs(':');
    EitherIs(SubDelims(), Char(':'), SUB_DELIMS, {':'});
    StepOf(Unreserved(), PctEncoded(), Alt(SubDelims(), Char(':')), UNRESERVED, SUB_DELIMS + {':'}, HEX_DIGITS);
    SumOfThree(UNRESERVED, SUB_DELIMS, {':'});
    HexAmong();
    EncodedIs(Alt(Unreserved(), Alt(PctEncoded(), Alt(SubDelims(), Char(':')))), HOST_CHARS + {':'}, HEX_DIGITS, s);
  }

  lemma OptionalIs(r: Rule, s: string)
    ensures InLanguage(Optional(r), s) <==> s == "" || InLanguage(r, s)
  {
    if InLanguage(Optional(r), s) {
      OptionalOut(r, s);
    }
    if s == "" {
      OptionalMeans(r, "", []);
    }
    if InLanguage(r, s) {
      var c :| Means(r, s, c);
      OptionalMeans(r, s, c);
    }
  }

  /** A part that may be missing, behind its sign. */
  lemma AnnouncedIs(ch: char, r: Rule, s: string)
    ensures InLanguage(Optional(Cat(Char(ch), r)), s) <==> s == "" || (s[0] == ch && InLanguage(r, s[1..]))
  {
    OptionalIs(Cat(Char(ch), r), s);
    if s != "" {
      if InLanguage(Cat(Char(ch), r), s) {
        AnnouncedOut(ch, r, s);
      }
      if s[0] == ch && InLanguage(r, s[1..]) {
        LiteralIn(Char(ch), [ch]);
        CatIn(Char(ch), r, [ch], s[1..]);
        assert [ch] + s[1..] == s;
      }
    }
  }

  /** A part that may be missing, in front of its sign. */
  lemma EndedIs(r: Rule, ch: char, s: string)
    ensures InLanguage(Optional(Cat(r, Char(ch))), s)
       <==> s == "" || (s[|s| - 1] == ch && InLanguage(r, s[..|s| - 1]))
  {
    OptionalIs(Cat(r, Char(ch)), s);
    if s != "" {
      if InLanguage(Cat(r, Char(ch)), s) {
        var first, last := CatOut(r, Char(ch), s);
        LiteralIn(Char(ch), last);
        assert s[..|s| - 1] == first;
      }
      if s[|s| - 1] == ch && InLanguage(r, s[..|s| - 1]) {
        LiteralIn(Char(ch), [ch]);
        CatIn(r, Char(ch), s[..|s| - 1], [ch]);
        assert s[..|s| - 1] + [ch] == s;
      }
    }
  }

  lemma PortExact(s: string)
    ensures InLanguage(Port(), s) <==> forall c <- s :: c in DIGITS
  {
    LettersAre();
    RepeatIs(Digit(), DIGITS, 0, None, s);
  }

  lemma AuthorityPartsAre(user: string, host: string, port: string)
    ensures InLanguage(Optional(Cat(UserInfo(), Char('@'))), user) && InLanguage(Host(), host)
            && InLanguage(Optional(Cat(Char(':'), Port())), port)
       <==> IsAuthorityText(user + (host + port), user, host, port)
  {
    EndedIs(UserInfo(), '@', user);
    HostExact(host);
    AnnouncedIs(':', Port(), port);
    if user != "" {
      UserExact(user[..|user| - 1]);
    }
    if port != "" {
      PortExact(port[1..]);
    }
  }

  lemma ThreeParts(a: Rule, b: Rule, c: Rule, s: string) returns (s1: string, s2: string, s3: string)
    requires InLanguage(Cat(a, Cat(b, c)), s)
    ensures s == s1 + (s2 + s3) && InLanguage(a, s1) && InLanguage(b, s2) && InLanguage(c, s3)
  {
    var rest;
    s1, rest := CatOut(a, Cat(b, c), s);
    s2, s3 := CatOut(b, c, rest);
  }

  lemma ThreePartsIn(a: Rule, b: Rule, c: Rule, s1: string, s2: string, s3: string)
    requires InLanguage(a, s1) && InLanguage(b, s2) && InLanguage(c, s3)
    ensures InLanguage(Cat(a, Cat(b, c)), s1 + (s2 + s3))
  {
    CatIn(b, c, s2, s3);
    CatIn(a, Cat(b, c), s1, s2 + s3);
  }

  lemma AuthorityExact(s: string)
    ensures InLanguage(Authority(), s) <==> IsAuthority(s)
  {
    var a, b := Optional(Cat(UserInfo(), Char('@'))), Optional(Cat(Char(':'), Port()));
    if InLanguage(Authority(), s) {
      var user, host, port := ThreeParts(a, Host(), b, s);
      AuthorityPartsAre(user, host, port);
      assert IsAuthorityText(s, user, host, port);
    }
    if IsAuthority(s) {
      var user, host, port :| IsAuthorityText(s, user, host, port);
      AuthorityPartsAre(user, host, port);
      ThreePartsIn(a, Host(), b, user, host, port);
    }
  }

  // ------------------------------------------------- paths and ends

  lemma EncodedJoin(a: string, b: string, chars: set<char>, hex: set<char>)
    requires IsEncoded(a, chars, hex) && IsEncoded(b, chars, hex)
    ensures IsEncoded(a + b, chars, hex)
  {
    var s := a + b;
    forall i | 0 <= i < |s| ensures IsEncodedAt(s, i, chars, hex) {
      if i >= |a| {
        assert IsEncodedAt(b, i - |a|, chars, hex);
      } else {
        assert IsEncodedAt(a, i, chars, hex);
      }
    }
  }

  lemma EncodedWider(s: string, chars: set<char>, more: set<char>, hex: set<char>)
    requires IsEncoded(s, chars, hex)
    ensures IsEncoded(s, chars + more, hex)
  {
    forall i | 0 <= i < |s| ensures IsEncodedAt(s, i, chars + more, hex) {
      assert IsEncodedAt(s, i, chars, hex);
    }
  }

  lemma SlashIn(p: Rule, chars: set<char>, hex: set<char>, s: string)
    requires StepIs(p, chars, hex) && hex <= chars && InLanguage(Cat(Char('/'), Star(p)), s)
    ensures s != "" && IsEncoded(s, chars + {'/'}, hex)
  {
    var slash, segment := CatOut(Char('/'), Star(p), s);
    LiteralIn(Char('/'), slash);
    EncodedIs(p, chars, hex, segment);
    EncodedWider(segment, chars, {'/'}, hex);
    assert IsEncoded("/", chars + {'/'}, hex);
    EncodedJoin("/", segment, chars + {'/'}, hex);
  }

  lemma {:induction false} SegmentsTimes(p: Rule, chars: set<char>, hex: set<char>, n: nat, s: string, c: seq<Capture>)
    requires StepIs(p, chars, hex) && hex <= chars && Times(Cat(Char('/'), Star(p)), n, s, c)
    ensures IsEncoded(s, chars + {'/'}, hex)
  {
    if n > 0 {
      var s1, c1, s2, c2 := TimesElim(Cat(Char('/'), Star(p)), n, s, c);
      SlashIn(p, chars, hex, s1);
      SegmentsTimes(p, chars, hex, n - 1, s2, c2);
      EncodedJoin(s1, s2, chars + {'/'}, hex);
    }
  }

  lemma SegmentsOut(p: Rule, chars: set<char>, hex: set<char>, s: string)
    requires StepIs(p, chars, hex) && hex <= chars && InLanguage(Star(Cat(Char('/'), Star(p))), s)
    ensures IsEncoded(s, chars + {'/'}, hex)
  {
    var c :| Means(Star(Cat(Char('/'), Star(p))), s, c);
    var n: nat :| InBounds(n, 0, None) && Times(Cat(Char('/'), Star(p)), n, s, c);
    SegmentsTimes(p, chars, hex, n, s, c);
  }

  /** The length of the part in front of the first slash. */
  function SegmentLength(s: string): (n: nat)
    ensures n <= |s| && '/' !in s[..n] && (n < |s| ==> s[n] == '/')
  {
    if s == "" || s[0] == '/' then 0
    else
      var n := SegmentLength(s[1..]);
      assert s[..n + 1] == [s[0]] + s[1..][..n];
      n + 1
  }

  /** What stands in front of a slash is encoded without it: no triple reaches over a slash. */
  lemma SegmentEncoded(s: string, n: nat, chars: set<char>, hex: set<char>)
    requires n <= |s| && '/' !in s[..n] && (n < |s| ==> s[n] == '/') && '/' !in hex && IsEncoded(s, chars + {'/'}, hex)
    ensures IsEncoded(s[..n], chars, hex)
  {
    forall i | 0 <= i < n ensures IsEncodedAt(s[..n], i, chars, hex) {
      assert IsEncodedAt(s, i, chars + {'/'}, hex) && s[..n][i] in s[..n];
    }
  }

  lemma {:induction false} SegmentsIn(p: Rule, chars: set<char>, hex: set<char>, s: string)
    requires StepIs(p, chars, hex) && hex <= chars && '/' !in hex && MayFollowAuthority(s)
    requires IsEncoded(s, chars + {'/'}, hex)
    ensures InLanguage(Star(Cat(Char('/'), Star(p))), s)
    decreases |s|
  {
    if s == "" {
      StarNone(Cat(Char('/'), Star(p)));
    } else {
      EncodedRest(s, 1, chars + {'/'}, hex);
      var tail := s[1..];
      var n := SegmentLength(tail);
      SegmentEncoded(tail, n, chars, hex);
      EncodedIs(p, chars, hex, tail[..n]);
      EncodedRest(tail, n, chars + {'/'}, hex);
      SegmentsIn(p, chars, hex, tail[n..]);
      FirstSegment(p, s, tail, n);
    }
  }

  lemma FirstSegment(p: Rule, s: string, tail: string, n: nat)
    requires s == "/" + tail && n <= |tail| && InLanguage(Star(p), tail[..n])
    requires InLanguage(Star(Cat(Char('/'), Star(p))), tail[n..])
    ensures InLanguage(Star(Cat(Char('/'), Star(p))), s)
  {
    LiteralIn(Char('/'), "/");
    CatIn(Char('/'), Star(p), "/", tail[..n]);
    StarMore(Cat(Char('/'), Star(p)), "/" + tail[..n], tail[n..]);
    assert s == ("/" + tail[..n]) + tail[n..];
  }

  lemma RootlessIn(p: Rule, chars: set<char>, hex: set<char>, s: string)
    requires StepIs(p, chars, hex) && hex <= chars && '/' !in hex && s != "" && s[0] != '/'
    requires IsEncoded(s, chars + {'/'}, hex)
    ensures InLanguage(Cat(Plus(p), Star(Cat(Char('/'), Star(p)))), s)
  {
    var n := SegmentLength(s);
    SegmentEncoded(s, n, chars, hex);
    EncodedIs(p, chars, hex, s[..n]);
    EncodedRest(s, n, chars + {'/'}, hex);
    SegmentsIn(p, chars, hex, s[n..]);
    CatIn(Plus(p), Star(Cat(Char('/'), Star(p))), s[..n], s[n..]);
    assert s[..n] + s[n..] == s;
  }

  lemma RootlessOut(p: Rule, chars: set<char>, hex: set<char>, s: string)
    requires StepIs(p, chars, hex) && hex <= chars && InLanguage(Cat(Plus(p), Star(Cat(Char('/'), Star(p)))), s)
    ensures IsEncoded(s, chars + {'/'}, hex)
  {
    var first, rest := CatOut(Plus(p), Star(Cat(Char('/'), Star(p))), s);
    EncodedIs(p, chars, hex, first);
    EncodedWider(first, chars, {'/'}, hex);
    SegmentsOut(p, chars, hex, rest);
    EncodedJoin(first, rest, chars + {'/'}, hex);
  }

  lemma NoSlashInHex()
    ensures '/' !in HEX_DIGITS
  {
  }

  /** The paths are all the texts of path characters and slashes. */
  lemma PathExact(s: string)
    ensures InLanguage(Paths(), s) <==> IsPath(s)
  {
    PcharIs();
    NoSlashInHex();
    AltLanguage(PathAbEmpty(), Alt(PathAbsolute(), Alt(PathRootless(), PathEmpty())), s);
    AltLanguage(PathAbsolute(), Alt(PathRootless(), PathEmpty()), s);
    AltLanguage(PathRootless(), PathEmpty(), s);
    if InLanguage(Paths(), s) {
      PathsExact(s);
      if MayFollowAuthority(s) {
        SegmentsOut(Pchar(), PATH_CHARS, HEX_DIGITS, s);
      } else {
        RootlessOut(Pchar(), PATH_CHARS, HEX_DIGITS, s);
      }
    }
    if IsPath(s) {
      if MayFollowAuthority(s) {
        SegmentsIn(Pchar(), PATH_CHARS, HEX_DIGITS, s);
      } else {
        RootlessIn(Pchar(), PATH_CHARS, HEX_DIGITS, s);
      }
    }
  }

  lemma QueryExact(s: string)
    ensures InLanguage(Query(), s) <==> IsEncoded(s, PATH_CHARS + {'/', '?'}, HEX_DIGITS)
  {
    PcharIs();
    CharIs('/');
    CharIs('?');
    EitherIs(Char('/'), Char('?'), {'/'}, {'?'});
    assert {'/'} + {'?'} == {'/', '?'};
    StepMore(Pchar(), Alt(Char('/'), Char('?')), PATH_CHARS, {'/', '?'}, HEX_DIGITS);
    EncodedIs(Alt(Pchar(), Alt(Char('/'), Char('?'))), PATH_CHARS + {'/', '?'}, HEX_DIGITS, s);
  }

  lemma AnnouncedExact(ch: char, s: string)
    ensures InLanguage(Optional(Cat(Char(ch), Query())), s) <==> IsAnnounced(ch, s)
  {
    AnnouncedIs(ch, Query(), s);
    if s != "" {
      QueryExact(s[1..]);
    }
  }

  lemma EndExact(s: string)
    ensures InLanguage(UriEnd(), s) <==> IsEnd(s)
  {
    var a, b := Optional(Cat(Char('?'), Query())), Optional(Cat(Char('#'), Fragment()));
    if InLanguage(UriEnd(), s) {
      var query, fragment := CatOut(a, b, s);
      AnnouncedExact('?', query);
      AnnouncedExact('#', fragment);
    }
    if IsEnd(s) {
      var query, fragment :| s == query + fragment && IsAnnounced('?', query) && IsAnnounced('#', fragment);
      AnnouncedExact('?', query);
      AnnouncedExact('#', fragment);
      CatIn(a, b, query, fragment);
    }
  }

  lemma UriPartsAre(s: string, scheme: string, authority: string, path: string, end: string)
    ensures IsUriOf(s, scheme, authority, path, end) <==> IsUriText(s, scheme, authority, path, end)
  {
    SchemeExact(scheme);
    AuthorityExact(authority);
    PathExact(path);
    EndExact(end);
  }

  /** The URIs of the server, character by character. */
  lemma UriChars(s: string)
    ensures InLanguage(Uri(), s) <==> IsUri(s)
  {
    UriExact(s);
    if scheme, authority, path, end :| IsUriOf(s, scheme, authority, path, end) {
      UriPartsAre(s, scheme, authority, path, end);
    }
    if scheme, authority, path, end :| IsUriText(s, scheme, authority, path, end) {
      UriPartsAre(s, scheme, authority, path, end);
    }
  }

  // ------------------------------------------------- all the fields

  lemma OptionalFieldsAre(f: Fields)
    ensures OptionalIn(StatementRule(), f.statement) <==> f.statement.Some? ==> IsStatement(f.statement.value)
    ensures OptionalIn(DateTime(), f.expirationAt) <==> f.expirationAt.Some? ==> IsDateTime(f.expirationAt.value)
    ensures OptionalIn(DateTime(), f.notBefore) <==> f.notBefore.Some? ==> IsDateTime(f.notBefore.value)
    ensures OptionalIn(RequestIdRule(), f.requestId) <==> f.requestId.Some? ==> IsRequestId(f.requestId.value)
  {
    if f.statement.Some? {
      StatementExact(f.statement.value);
    }
    if f.expirationAt.Some? {
      DateTimeExact(f.expirationAt.value);
    }
    if f.notBefore.Some? {
      DateTimeExact(f.notBefore.value);
    }
    if f.requestId.Some? {
      RequestIdExact(f.requestId.value);
    }
  }

  lemma ResourcesAre(uris: seq<string>)
    ensures (forall u <- uris :: InLanguage(Uri(), u)) <==> forall u <- uris :: IsUri(u)
  {
    forall u | u in uris ensures InLanguage(Uri(), u) <==> IsUri(u) {
      UriChars(u);
    }
  }

  /** The fields the server's rules accept, said without the rules. */
  lemma WellFormedExact(f: Fields)
    ensures WellFormed(LikecoinRules(), f) <==> FieldsFit(f)
  {
    AuthorityExact(f.authority);
    AddressExact(f.address);
    UriChars(f.uri);
    ChainIdExact(f.chainId);
    NonceExact(f.nonce);
    DateTimeExact(f.issuedAt);
    OptionalFieldsAre(f);
    if f.resources.Some? {
      ResourcesAre(f.resources.value);
    }
  }
}
