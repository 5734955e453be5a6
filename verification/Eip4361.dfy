/** The sign-in message: its grammar, and its fields with their text and their captures.
    The derivations of the grammar are exactly the printed texts of well-formed fields. */
module Eip4361 {
  import opened Wrappers
  import opened Strings
  import opened Abnf
  import opened Rfc3986
  import opened Iso8601

  const AUTHORITY := 0
  const ADDRESS := 1
  const STATEMENT := 2
  const URI := 3
  const CHAIN_ID := 4
  const NONCE := 5
  const ISSUED_AT := 6
  const EXPIRATION_AT := 7
  const NOT_BEFORE := 8
  const REQUEST_ID := 9
  const RESOURCES := 10
  const RESOURCE := 11

  function Sp(): Rule { Char(' ') }
  function Lf(): Rule { Char('\n') }

  /** The rules of the fields.  What is proved about the layout of the message holds for any choice of them. */
  datatype FieldRules = FieldRules(
    authority: Rule, address: Rule, statement: Rule, uri: Rule, chainId: Rule, nonce: Rule, dateTime: Rule,
        requestId: Rule)
  {
    /** No field rule has keys of its own. */
    predicate Unkeyed() {
      && Keyless(authority) && Keyless(address) && Keyless(statement) && Keyless(uri)
      && Keyless(chainId) && Keyless(nonce) && Keyless(dateTime) && Keyless(requestId)
    }

    /** No field runs over the end of its line. */
    predicate OneLine() {
      && Avoids(authority, '\n') && Avoids(address, '\n') && Avoids(statement, '\n') && Avoids(uri, '\n')
      && Avoids(chainId, '\n') && Avoids(nonce, '\n') && Avoids(dateTime, '\n') && Avoids(requestId, '\n')
    }

    predicate AllProper() {
      && Proper(authority) && Proper(address) && Proper(statement) && Proper(uri)
      && Proper(chainId) && Proper(nonce) && Proper(dateTime) && Proper(requestId)
    }
  }

  function StatementRule(): Rule { Star(Alt(Unreserved(), Alt(Reserved(), Sp()))) }
  function AddressRule(): Rule { Cat(Plus(Alpha()), Cat(Char('1'), Plus(AlphaNum()))) }
  function ChainIdRule(): Rule { Plus(Alt(AlphaNum(), Char('-'))) }
  function NonceRule(): Rule { Exactly(8, AlphaNum()) }
  function RequestIdRule(): Rule { Star(Pchar()) }

  /** The rules the server uses. */
  function LikecoinRules(): FieldRules {
    FieldRules(Authority(), AddressRule(), StatementRule(), Uri(), ChainIdRule(), NonceRule(), DateTime(),
               RequestIdRule())
  }

  // In pieces short enough for the verifier to look through.
  const SIGN_IN_TEXT := "wants you to sign in " + "with your LikeCoin " + "account:"
  const SIGN_IN_SUFFIX := " " + SIGN_IN_TEXT

  function SignInEnd(): Rule { Cat(Sp(), Cat(Text(SIGN_IN_TEXT), Lf())) }

  function SignInLine(r: FieldRules): Rule { Cat(Keyed(AUTHORITY, r.authority), SignInEnd()) }

  /** `value LF`, the value keyed. */
  function ValueLine(key: nat, value: Rule): Rule { Cat(Keyed(key, value), Lf()) }

  /** `title SP value`, the value keyed. */
  function Labelled(title: string, key: nat, value: Rule): Rule {
    Cat(Text(title), Cat(Sp(), Keyed(key, value)))
  }

  function Line(title: string, key: nat, value: Rule): Rule {
    Cat(Labelled(title, key, value), Lf())
  }

  function VersionLine(): Rule { Cat(Text("Version:"), Cat(Sp(), Cat(Char('1'), Lf()))) }

  /** `[ LF title SP value ]` */
  function TailLine(title: string, key: nat, value: Rule): Rule {
    Optional(Cat(Lf(), Labelled(title, key, value)))
  }

  /** `LF "- " uri` */
  function ResourceRule(uri: Rule): Rule { Cat(Lf(), Labelled("-", RESOURCE, uri)) }

  function ResourceBlock(uri: Rule): Rule { Cat(Text("Resources:"), Keyed(RESOURCES, Star(ResourceRule(uri)))) }

  /** `[ LF "Resources:" *( LF "- " uri ) ]` */
  function ResourceLines(uri: Rule): Rule { Optional(Cat(Lf(), ResourceBlock(uri))) }

  function Head(r: FieldRules): Rule {
    Cat(SignInLine(r), Cat(ValueLine(ADDRESS, r.address),
                           Cat(Lf(), Cat(Optional(ValueLine(STATEMENT, r.statement)), Lf()))))
  }

  function NonceAndIssued(r: FieldRules): Rule {
    Cat(Line("Nonce:", NONCE, r.nonce), Labelled("Issued At:", ISSUED_AT, r.dateTime))
  }

  function Body(r: FieldRules): Rule {
    Cat(Line("URI:", URI, r.uri), Cat(VersionLine(), Cat(Line("Chain ID:", CHAIN_ID, r.chainId), NonceAndIssued(r))))
  }

  function Tail(r: FieldRules): Rule {
    Cat(TailLine("Expiration Time:", EXPIRATION_AT, r.dateTime), Cat(TailLine("Not Before:", NOT_BEFORE, r.dateTime),
    Cat(TailLine("Request ID:", REQUEST_ID, r.requestId), ResourceLines(r.uri))))
  }

  /** The grammar; its end-of-text terminal is `InLanguage`, which speaks of the whole text. */
  function Message(r: FieldRules): Rule { Cat(Head(r), Cat(Body(r), Tail(r))) }

  function AuthenticationMessage(): Rule { Message(LikecoinRules()) }

  // ------------------------------------------------- fields, their text and their captures

  datatype Fields = Fields(
    authority: string, address: string, statement: Option<string>, uri: string, chainId: string, nonce: string,
    issuedAt: string, expirationAt: Option<string>, notBefore: Option<string>, requestId: Option<string>,
    resources: Option<seq<string>>)

  ghost predicate OptionalIn(r: Rule, v: Option<string>) {
    v.Some? ==> InLanguage(r, v.value)
  }

  /** Every field belongs to the language of its rule. */
  ghost predicate WellFormed(r: FieldRules, f: Fields) {
    && InLanguage(r.authority, f.authority)
    && InLanguage(r.address, f.address)
    && OptionalIn(r.statement, f.statement)
    && InLanguage(r.uri, f.uri)
    && InLanguage(r.chainId, f.chainId)
    && InLanguage(r.nonce, f.nonce)
    && InLanguage(r.dateTime, f.issuedAt)
    && OptionalIn(r.dateTime, f.expirationAt)
    && OptionalIn(r.dateTime, f.notBefore)
    && OptionalIn(r.requestId, f.requestId)
    && (f.resources.Some? ==> forall u <- f.resources.value :: InLanguage(r.uri, u))
  }

  function OptionalLine(title: string, value: Option<string>): seq<string> {
    match value case None => [] case Some(v) => [title + v]
  }

  function ResourceList(uris: seq<string>): seq<string> {
    if uris == [] then [] else ["- " + uris[0]] + ResourceList(uris[1..])
  }

  function ResourcesPart(resources: Option<seq<string>>): seq<string> {
    match resources case None => [] case Some(uris) => ["Resources:"] + ResourceList(uris)
  }

  function HeadLines(f: Fields): seq<string> {
    [f.authority + SIGN_IN_SUFFIX, f.address, ""] + OptionalLine("", f.statement) + [""]
  }

  function BodyLines(f: Fields): seq<string> {
    ["URI: " + f.uri, "Version: 1", "Chain ID: " + f.chainId, "Nonce: " + f.nonce]
  }

  function TailLines(f: Fields): seq<string> {
    OptionalLine("Expiration Time: ", f.expirationAt) + OptionalLine("Not Before: ", f.notBefore)
    + OptionalLine("Request ID: ", f.requestId)
    + ResourcesPart(f.resources)
  }

  function MessageLines(f: Fields): (ls: seq<string>)
    ensures ls != []
  {
    HeadLines(f) + BodyLines(f) + ["Issued At: " + f.issuedAt] + TailLines(f)
  }

  /** The message text: the lines with a line feed between them, none after the last. */
  function Print(f: Fields): string {
    Join(MessageLines(f), '\n')
  }

  function OptionalCapture(key: nat, value: Option<string>): seq<Capture> {
    match value case None => [] case Some(v) => [Capture(key, v)]
  }

  function ResourceText(uris: seq<string>): string {
    if uris == [] then "" else "\n- " + uris[0] + ResourceText(uris[1..])
  }

  function ResourceCaptures(uris: seq<string>): seq<Capture> {
    if uris == [] then [] else [Capture(RESOURCE, uris[0])] + ResourceCaptures(uris[1..])
  }

  function ResourcesCaptures(resources: Option<seq<string>>): seq<Capture> {
    match resources
    case None => []
    case Some(uris) => [Capture(RESOURCES, ResourceText(uris))] + ResourceCaptures(uris)
  }

  function HeadCaptures(f: Fields): seq<Capture> {
    [Capture(AUTHORITY, f.authority), Capture(ADDRESS, f.address)] + OptionalCapture(STATEMENT, f.statement)
  }

  function BodyCaptures(f: Fields): seq<Capture> {
    [Capture(URI, f.uri), Capture(CHAIN_ID, f.chainId), Capture(NONCE, f.nonce), Capture(ISSUED_AT, f.issuedAt)]
  }

  function TailCaptures(f: Fields): seq<Capture> {
    OptionalCapture(EXPIRATION_AT, f.expirationAt) + OptionalCapture(NOT_BEFORE, f.notBefore)
    + OptionalCapture(REQUEST_ID, f.requestId)
    + ResourcesCaptures(f.resources)
  }

  /** The keyed parts the server reads back. */
  function Captures(f: Fields): seq<Capture> {
    HeadCaptures(f) + BodyCaptures(f) + TailCaptures(f)
  }

  // ------------------------------------------------- the lines, as the grammar concatenates them

  function Terminated(ls: seq<string>): string {
    if ls == [] then "" else ls[0] + "\n" + Terminated(ls[1..])
  }

  function Prefixed(ls: seq<string>): string {
    if ls == [] then "" else "\n" + ls[0] + Prefixed(ls[1..])
  }

  lemma {:induction false} JoinFirst(first: string, rest: seq<string>)
    ensures Join([first] + rest, '\n') == first + Prefixed(rest)
    decreases |rest|
  {
    var ls := [first] + rest;
    assert ls[1..] == rest;
    if rest != [] {
      JoinFirst(rest[0], rest[1..]);
      assert rest == [rest[0]] + rest[1..];
      Assoc4(first, "\n", rest[0], Prefixed(rest[1..]));
      Assoc("\n", rest[0], Prefixed(rest[1..]));
    }
  }

  lemma {:induction false} JoinParts(before: seq<string>, last: string, rest: seq<string>)
    ensures Join(before + [last] + rest, '\n') == Terminated(before) + last + Prefixed(rest)
  {
    if before == [] {
      JoinFirst(last, rest);
      assert before + [last] + rest == [last] + rest;
    } else {
      JoinParts(before[1..], last, rest);
      assert before + [last] + rest == [before[0]] + (before[1..] + [last] + rest);
      JoinNext(before[0], before[1..] + [last] + rest);
      Regroup(before[0] + "\n", Terminated(before[1..]), last, Prefixed(rest));
    }
  }

  lemma JoinNext(first: string, rest: seq<string>)
    requires rest != []
    ensures Join([first] + rest, '\n') == first + "\n" + Join(rest, '\n')
  {
    assert ([first] + rest)[1..] == rest;
  }

  lemma Regroup(a: string, b: string, c: string, d: string)
    ensures a + (b + c + d) == a + b + c + d
  {
  }

  lemma {:induction false} TerminatedConcat(a: seq<string>, b: seq<string>)
    ensures Terminated(a + b) == Terminated(a) + Terminated(b)
  {
    if a == [] {
      assert a + b == b;
    } else {
      TerminatedConcat(a[1..], b);
      assert (a + b)[1..] == a[1..] + b;
    }
  }

  lemma {:induction false} PrefixedConcat(a: seq<string>, b: seq<string>)
    ensures Prefixed(a + b) == Prefixed(a) + Prefixed(b)
  {
    if a == [] {
      assert a + b == b;
    } else {
      PrefixedConcat(a[1..], b);
      assert (a + b)[1..] == a[1..] + b;
    }
  }

  lemma OneLineText(line: string)
    ensures Prefixed([line]) == "\n" + line && Terminated([line]) == line + "\n"
  {
  }

  function BodyText(f: Fields): string {
    Terminated(BodyLines(f)) + "Issued At: " + f.issuedAt
  }

  lemma PrintParts(f: Fields)
    ensures Print(f) == Terminated(HeadLines(f)) + (BodyText(f) + Prefixed(TailLines(f)))
  {
    JoinParts(HeadLines(f) + BodyLines(f), "Issued At: " + f.issuedAt, TailLines(f));
    TerminatedConcat(HeadLines(f), BodyLines(f));
    Regroup(Terminated(HeadLines(f)), Terminated(BodyLines(f)), "Issued At: " + f.issuedAt, Prefixed(TailLines(f)));
    Assoc(Terminated(BodyLines(f)), "Issued At: ", f.issuedAt);
  }

  // ------------------------------------------------- from a derivation to fields

  lemma KeyedMeans(key: nat, r: Rule, s: string, c: seq<Capture>)
    requires Keyless(r)
    ensures Means(Keyed(key, r), s, c) <==> c == [Capture(key, s)] && InLanguage(r, s)
  {
    if Means(Keyed(key, r), s, c) {
      KeylessSound(r, s, c[1..]);
      assert c == [c[0]] + c[1..];
    }
    if c == [Capture(key, s)] && InLanguage(r, s) {
      var d :| Means(r, s, d);
      KeylessSound(r, s, d);
      assert c[1..] == d;
    }
  }

  lemma LabelledElim(title: string, key: nat, r: Rule, s: string, c: seq<Capture>) returns (v: string)
    requires Keyless(r) && Means(Labelled(title, key, r), s, c)
    ensures s == title + " " + v && c == [Capture(key, v)] && InLanguage(r, v)
  {
    var s1 := LiteralFirst(Text(title), Cat(Sp(), Keyed(key, r)), s, c);
    v := LiteralFirst(Sp(), Keyed(key, r), s1, c);
    KeyedMeans(key, r, v, c);
  }

  lemma LabelledIntro(title: string, key: nat, r: Rule, v: string)
    requires Keyless(r) && InLanguage(r, v)
    ensures Means(Labelled(title, key, r), title + " " + v, [Capture(key, v)])
  {
    var c := [Capture(key, v)];
    KeyedMeans(key, r, v, c);
    LiteralFirstIntro(Sp(), Keyed(key, r), v, c);
    LiteralFirstIntro(Text(title), Cat(Sp(), Keyed(key, r)), " " + v, c);
    assert title + (" " + v) == title + " " + v;
  }

  lemma LineElim(title: string, key: nat, r: Rule, s: string, c: seq<Capture>) returns (v: string)
    requires Keyless(r) && Means(Line(title, key, r), s, c)
    ensures s == title + " " + v + "\n" && c == [Capture(key, v)] && InLanguage(r, v)
  {
    var s1 := LiteralLast(Labelled(title, key, r), Lf(), s, c);
    v := LabelledElim(title, key, r, s1, c);
  }

  lemma LineIntro(title: string, key: nat, r: Rule, v: string)
    requires Keyless(r) && InLanguage(r, v)
    ensures Means(Line(title, key, r), title + " " + v + "\n", [Capture(key, v)])
  {
    LabelledIntro(title, key, r, v);
    LiteralLastIntro(Labelled(title, key, r), Lf(), title + " " + v, [Capture(key, v)]);
  }

  lemma TailLineElim(title: string, key: nat, r: Rule, s: string, c: seq<Capture>) returns (v: Option<string>)
    requires Keyless(r) && Means(TailLine(title, key, r), s, c)
    ensures s == Prefixed(OptionalLine(title + " ", v)) && c == OptionalCapture(key, v) && OptionalIn(r, v)
  {
    var field := Labelled(title, key, r);
    OptionalMeans(Cat(Lf(), field), s, c);
    if s == "" && c == [] {
      v := None;
    } else {
      var s1 := LiteralFirst(Lf(), field, s, c);
      var w := LabelledElim(title, key, r, s1, c);
      OneLineText(title + " " + w);
      v := Some(w);
    }
  }

  lemma TailLineIntro(title: string, key: nat, r: Rule, v: Option<string>)
    requires Keyless(r) && OptionalIn(r, v)
    ensures Means(TailLine(title, key, r), Prefixed(OptionalLine(title + " ", v)), OptionalCapture(key, v))
  {
    var field := Labelled(title, key, r);
    OptionalMeans(Cat(Lf(), field), Prefixed(OptionalLine(title + " ", v)), OptionalCapture(key, v));
    if v.Some? {
      LabelledIntro(title, key, r, v.value);
      LiteralFirstIntro(Lf(), field, title + " " + v.value, [Capture(key, v.value)]);
      OneLineText(title + " " + v.value);
    }
  }

  lemma ResourceElim(uri: Rule, s: string, c: seq<Capture>) returns (u: string)
    requires Keyless(uri) && Means(ResourceRule(uri), s, c)
    ensures s == "\n- " + u && c == [Capture(RESOURCE, u)] && InLanguage(uri, u)
  {
    var s1 := LiteralFirst(Lf(), Labelled("-", RESOURCE, uri), s, c);
    u := LabelledElim("-", RESOURCE, uri, s1, c);
    assert "\n" + ("-" + " " + u) == "\n- " + u;
  }

  lemma ResourceIntro(uri: Rule, u: string)
    requires Keyless(uri) && InLanguage(uri, u)
    ensures Means(ResourceRule(uri), "\n- " + u, [Capture(RESOURCE, u)])
  {
    LabelledIntro("-", RESOURCE, uri, u);
    LiteralFirstIntro(Lf(), Labelled("-", RESOURCE, uri), "-" + " " + u, [Capture(RESOURCE, u)]);
    assert "\n" + ("-" + " " + u) == "\n- " + u;
  }

  lemma {:induction false} ResourcesElim(uri: Rule, n: nat, s: string, c: seq<Capture>) returns (uris: seq<string>)
    requires Keyless(uri) && Times(ResourceRule(uri), n, s, c)
    ensures s == ResourceText(uris) && c == ResourceCaptures(uris) && forall u <- uris :: InLanguage(uri, u)
    decreases n
  {
    if n == 0 {
      uris := [];
    } else {
      var s1, c1, s2, c2 := TimesElim(ResourceRule(uri), n, s, c);
      var u := ResourceElim(uri, s1, c1);
      var rest := ResourcesElim(uri, n - 1, s2, c2);
      uris := [u] + rest;
      assert uris[1..] == rest;
    }
  }

  lemma {:induction false} ResourcesIntro(uri: Rule, uris: seq<string>)
    requires Keyless(uri) && forall u <- uris :: InLanguage(uri, u)
    ensures Times(ResourceRule(uri), |uris|, ResourceText(uris), ResourceCaptures(uris))
  {
    if uris != [] {
      ResourceIntro(uri, uris[0]);
      ResourcesIntro(uri, uris[1..]);
      TimesStep(ResourceRule(uri), |uris| - 1, "\n- " + uris[0], [Capture(RESOURCE, uris[0])],
                ResourceText(uris[1..]), ResourceCaptures(uris[1..]));
    }
  }

  lemma {:induction false} ResourceTextLines(uris: seq<string>)
    ensures ResourceText(uris) == Prefixed(ResourceList(uris))
  {
    if uris != [] {
      ResourceTextLines(uris[1..]);
      assert ResourceList(uris)[1..] == ResourceList(uris[1..]);
      assert "\n- " + uris[0] == "\n" + ("- " + uris[0]);
    }
  }

  lemma ResourceLinesElim(uri: Rule, s: string, c: seq<Capture>) returns (v: Option<seq<string>>)
    requires Keyless(uri) && Means(ResourceLines(uri), s, c)
    ensures s == Prefixed(ResourcesPart(v)) && c == ResourcesCaptures(v)
    ensures v.Some? ==> forall u <- v.value :: InLanguage(uri, u)
  {
    var block := ResourceBlock(uri);
    OptionalMeans(Cat(Lf(), block), s, c);
    if s == "" && c == [] {
      v := None;
    } else {
      var s1 := LiteralFirst(Lf(), block, s, c);
      var s2 := LiteralFirst(Text("Resources:"), Keyed(RESOURCES, Star(ResourceRule(uri))), s1, c);
      var uris := KeyedResourcesElim(uri, s2, c);
      ResourcesPartText(uris);
      v := Some(uris);
    }
  }

  lemma KeyedResourcesElim(uri: Rule, s: string, c: seq<Capture>) returns (uris: seq<string>)
    requires Keyless(uri) && Means(Keyed(RESOURCES, Star(ResourceRule(uri))), s, c)
    ensures s == ResourceText(uris) && c == ResourcesCaptures(Some(uris)) && forall u <- uris :: InLanguage(uri, u)
  {
    assert Means(Star(ResourceRule(uri)), s, c[1..]);
    var n: nat :| InBounds(n, 0, None) && Times(ResourceRule(uri), n, s, c[1..]);
    uris := ResourcesElim(uri, n, s, c[1..]);
    assert c == [c[0]] + c[1..];
  }

  lemma ResourcesPartText(uris: seq<string>)
    ensures Prefixed(ResourcesPart(Some(uris))) == "\n" + ("Resources:" + ResourceText(uris))
  {
    ResourceTextLines(uris);
    assert (["Resources:"] + ResourceList(uris))[1..] == ResourceList(uris);
  }

  lemma ResourceLinesIntro(uri: Rule, v: Option<seq<string>>)
    requires Keyless(uri) && (v.Some? ==> forall u <- v.value :: InLanguage(uri, u))
    ensures Means(ResourceLines(uri), Prefixed(ResourcesPart(v)), ResourcesCaptures(v))
  {
    var star, block := Star(ResourceRule(uri)), ResourceBlock(uri);
    OptionalMeans(Cat(Lf(), block), Prefixed(ResourcesPart(v)), ResourcesCaptures(v));
    if v.Some? {
      var text, c := ResourceText(v.value), ResourcesCaptures(v);
      ResourcesIntro(uri, v.value);
      assert c[1..] == ResourceCaptures(v.value) && Means(star, text, c[1..]);
      LiteralFirstIntro(Text("Resources:"), Keyed(RESOURCES, star), text, c);
      LiteralFirstIntro(Lf(), block, "Resources:" + text, c);
      ResourcesPartText(v.value);
    }
  }

  // ------------------------------------------------- head, body and tail

  lemma SignInEndLiteral()
    ensures LiteralOf(SignInEnd()) == Some(SIGN_IN_SUFFIX + "\n")
  {
    var text := SIGN_IN_TEXT;
    calc {
      LiteralOf(SignInEnd());
      Some([' '] + (text + ['\n']));
      { assert [' '] + (text + ['\n']) == " " + text + "\n"; }
      Some(SIGN_IN_SUFFIX + "\n");
    }
  }

  lemma VersionLiteral()
    ensures LiteralOf(VersionLine()) == Some("Version: 1\n")
  {
    assert "Version:" + (" " + ("1" + "\n")) == "Version: 1\n";
  }

  lemma SignInElim(r: FieldRules, s: string, c: seq<Capture>) returns (v: string)
    requires r.Unkeyed() && Means(SignInLine(r), s, c)
    ensures s == v + (SIGN_IN_SUFFIX + "\n") && c == [Capture(AUTHORITY, v)] && InLanguage(r.authority, v)
  {
    SignInEndLiteral();
    v := LiteralLast(Keyed(AUTHORITY, r.authority), SignInEnd(), s, c);
    KeyedMeans(AUTHORITY, r.authority, v, c);
  }

  lemma SignInIntro(r: FieldRules, v: string)
    requires r.Unkeyed() && InLanguage(r.authority, v)
    ensures Means(SignInLine(r), v + (SIGN_IN_SUFFIX + "\n"), [Capture(AUTHORITY, v)])
  {
    SignInEndLiteral();
    KeyedMeans(AUTHORITY, r.authority, v, [Capture(AUTHORITY, v)]);
    LiteralLastIntro(Keyed(AUTHORITY, r.authority), SignInEnd(), v, [Capture(AUTHORITY, v)]);
  }

  lemma ValueLineElim(key: nat, r: Rule, s: string, c: seq<Capture>) returns (v: string)
    requires Keyless(r) && Means(ValueLine(key, r), s, c)
    ensures s == v + "\n" && c == [Capture(key, v)] && InLanguage(r, v)
  {
    v := LiteralLast(Keyed(key, r), Lf(), s, c);
    KeyedMeans(key, r, v, c);
  }

  lemma ValueLineIntro(key: nat, r: Rule, v: string)
    requires Keyless(r) && InLanguage(r, v)
    ensures Means(ValueLine(key, r), v + "\n", [Capture(key, v)])
  {
    KeyedMeans(key, r, v, [Capture(key, v)]);
    LiteralLastIntro(Keyed(key, r), Lf(), v, [Capture(key, v)]);
  }

  lemma StatementElim(r: Rule, s: string, c: seq<Capture>) returns (v: Option<string>)
    requires Keyless(r) && Means(Optional(ValueLine(STATEMENT, r)), s, c)
    ensures s == Terminated(OptionalLine("", v)) && c == OptionalCapture(STATEMENT, v) && OptionalIn(r, v)
  {
    OptionalMeans(ValueLine(STATEMENT, r), s, c);
    if s == "" && c == [] {
      v := None;
    } else {
      var w := ValueLineElim(STATEMENT, r, s, c);
      OneLineText("" + w);
      assert "" + w == w;
      v := Some(w);
    }
  }

  lemma StatementIntro(r: Rule, v: Option<string>)
    requires Keyless(r) && OptionalIn(r, v)
    ensures Means(Optional(ValueLine(STATEMENT, r)), Terminated(OptionalLine("", v)), OptionalCapture(STATEMENT, v))
  {
    OptionalMeans(ValueLine(STATEMENT, r), Terminated(OptionalLine("", v)), OptionalCapture(STATEMENT, v));
    if v.Some? {
      ValueLineIntro(STATEMENT, r, v.value);
      OneLineText("" + v.value);
      assert "" + v.value == v.value;
    }
  }

  lemma Terminated3(x: string, y: string, z: string)
    ensures Terminated([x, y, z]) == x + "\n" + (y + "\n" + (z + "\n"))
  {
    OneLineText(z);
    assert [x, y, z][1..] == [y, z] && [y, z][1..] == [z];
  }

  lemma HeadText(f: Fields)
    ensures Terminated(HeadLines(f))
         == f.authority + (SIGN_IN_SUFFIX + "\n")
            + (f.address + "\n" + ("\n" + (Terminated(OptionalLine("", f.statement)) + "\n")))
  {
    var first := [f.authority + SIGN_IN_SUFFIX, f.address, ""];
    var opt := OptionalLine("", f.statement);
    TerminatedConcat(first, opt);
    TerminatedConcat(first + opt, [""]);
    OneLineText("");
    Terminated3(f.authority + SIGN_IN_SUFFIX, f.address, "");
  }

  lemma HeadElim(r: FieldRules, s: string, c: seq<Capture>) returns (f: Fields)
    requires r.Unkeyed() && Means(Head(r), s, c)
    ensures s == Terminated(HeadLines(f)) && c == HeadCaptures(f)
    ensures InLanguage(r.authority, f.authority) && InLanguage(r.address, f.address)
            && OptionalIn(r.statement, f.statement)
  {
    var rest3 := Cat(Optional(ValueLine(STATEMENT, r.statement)), Lf());
    var rest2 := Cat(Lf(), rest3);
    var rest1 := Cat(ValueLine(ADDRESS, r.address), rest2);
    var s1, c1, s2, c2 := CatElim(SignInLine(r), rest1, s, c);
    var authority := SignInElim(r, s1, c1);
    var s3, c3, s4, c4 := CatElim(ValueLine(ADDRESS, r.address), rest2, s2, c2);
    var address := ValueLineElim(ADDRESS, r.address, s3, c3);
    var s5 := LiteralFirst(Lf(), rest3, s4, c4);
    var s6 := LiteralLast(Optional(ValueLine(STATEMENT, r.statement)), Lf(), s5, c4);
    var statement := StatementElim(r.statement, s6, c4);
    f := Fields(authority, address, statement, "", "", "", "", None, None, None, None);
    HeadText(f);
  }

  lemma {:induction false} AddressIntro(r: FieldRules, f: Fields)
    requires r.Unkeyed() && InLanguage(r.address, f.address) && OptionalIn(r.statement, f.statement)
    ensures Means(Cat(ValueLine(ADDRESS, r.address), Cat(Lf(), Cat(Optional(ValueLine(STATEMENT, r.statement)), Lf()))),
                  f.address + "\n" + ("\n" + (Terminated(OptionalLine("", f.statement)) + "\n")),
                  [Capture(ADDRESS, f.address)] + OptionalCapture(STATEMENT, f.statement))
  {
    var rest3 := Cat(Optional(ValueLine(STATEMENT, r.statement)), Lf());
    var c := OptionalCapture(STATEMENT, f.statement);
    var s3 := Terminated(OptionalLine("", f.statement));
    StatementIntro(r.statement, f.statement);
    LiteralLastIntro(Optional(ValueLine(STATEMENT, r.statement)), Lf(), s3, c);
    LiteralFirstIntro(Lf(), rest3, s3 + "\n", c);
    ValueLineIntro(ADDRESS, r.address, f.address);
    CatIntro(ValueLine(ADDRESS, r.address), Cat(Lf(), rest3), f.address + "\n", [Capture(ADDRESS, f.address)],
             "\n" + (s3 + "\n"), c);
  }

  lemma {:induction false} HeadIntro(r: FieldRules, f: Fields)
    requires r.Unkeyed()
    requires InLanguage(r.authority, f.authority) && InLanguage(r.address, f.address)
             && OptionalIn(r.statement, f.statement)
    ensures Means(Head(r), Terminated(HeadLines(f)), HeadCaptures(f))
  {
    var rest1 := Cat(ValueLine(ADDRESS, r.address), Cat(Lf(), Cat(Optional(ValueLine(STATEMENT, r.statement)), Lf())));
    var c := [Capture(ADDRESS, f.address)] + OptionalCapture(STATEMENT, f.statement);
    AddressIntro(r, f);
    SignInIntro(r, f.authority);
    CatIntro(SignInLine(r), rest1, f.authority + (SIGN_IN_SUFFIX + "\n"), [Capture(AUTHORITY, f.authority)],
             f.address + "\n" + ("\n" + (Terminated(OptionalLine("", f.statement)) + "\n")), c);
    HeadText(f);
    assert [Capture(AUTHORITY, f.authority)] + c == HeadCaptures(f);
  }

  lemma BodyLinesText(f: Fields)
    ensures BodyText(f)
         == "URI:" + " " + f.uri + "\n" + ("Version: 1\n" + ("Chain ID:" + " " + f.chainId + "\n"
            + ("Nonce:" + " " + f.nonce + "\n" + ("Issued At:" + " " + f.issuedAt))))
  {
    var u, v, w, x := "URI: " + f.uri, "Version: 1", "Chain ID: " + f.chainId, "Nonce: " + f.nonce;
    Terminated3(v, w, x);
    assert [u, v, w, x][1..] == [v, w, x];
    assert "URI:" + " " == "URI: " && "Chain ID:" + " " == "Chain ID: " && "Nonce:" + " " == "Nonce: "
        && "Issued At:" + " " == "Issued At: " && "Version: 1" + "\n" == "Version: 1\n";
  }

  lemma BodyElim(r: FieldRules, s: string, c: seq<Capture>) returns (f: Fields)
    requires r.Unkeyed() && Means(Body(r), s, c)
    ensures s == BodyText(f) && c == BodyCaptures(f)
    ensures InLanguage(r.uri, f.uri) && InLanguage(r.chainId, f.chainId) && InLanguage(r.nonce, f.nonce)
    ensures InLanguage(r.dateTime, f.issuedAt)
  {
    var ss, cs := Cat4Elim(Line("URI:", URI, r.uri), VersionLine(), Line("Chain ID:", CHAIN_ID, r.chainId),
                           NonceAndIssued(r), s, c);
    var uri := LineElim("URI:", URI, r.uri, ss.0, cs.0);
    VersionLiteral();
    LiteralMeans(VersionLine(), ss.1, cs.1);
    var chainId := LineElim("Chain ID:", CHAIN_ID, r.chainId, ss.2, cs.2);
    var nonce, issuedAt := NonceAndIssuedElim(r, ss.3, cs.3);
    f := Fields("", "", None, uri, chainId, nonce, issuedAt, None, None, None, None);
    BodyLinesText(f);
    BodyCapturesParts(f);
  }

  lemma BodyCapturesParts(f: Fields)
    ensures BodyCaptures(f) == [Capture(URI, f.uri)] + ([] + ([Capture(CHAIN_ID, f.chainId)]
                                + ([Capture(NONCE, f.nonce)] + [Capture(ISSUED_AT, f.issuedAt)])))
  {
  }

  lemma NonceAndIssuedElim(r: FieldRules, s: string, c: seq<Capture>) returns (nonce: string, issuedAt: string)
    requires r.Unkeyed() && Means(NonceAndIssued(r), s, c)
    ensures s == "Nonce:" + " " + nonce + "\n" + ("Issued At:" + " " + issuedAt)
    ensures c == [Capture(NONCE, nonce)] + [Capture(ISSUED_AT, issuedAt)]
    ensures InLanguage(r.nonce, nonce) && InLanguage(r.dateTime, issuedAt)
  {
    var s1, c1, s2, c2 := CatElim(Line("Nonce:", NONCE, r.nonce), Labelled("Issued At:", ISSUED_AT, r.dateTime), s, c);
    nonce := LineElim("Nonce:", NONCE, r.nonce, s1, c1);
    issuedAt := LabelledElim("Issued At:", ISSUED_AT, r.dateTime, s2, c2);
  }

  lemma BodyIntro(r: FieldRules, f: Fields)
    requires r.Unkeyed()
    requires InLanguage(r.uri, f.uri) && InLanguage(r.chainId, f.chainId) && InLanguage(r.nonce, f.nonce)
    requires InLanguage(r.dateTime, f.issuedAt)
    ensures Means(Body(r), BodyText(f), BodyCaptures(f))
  {
    var s3 := "Nonce:" + " " + f.nonce + "\n" + ("Issued At:" + " " + f.issuedAt);
    var c3 := [Capture(NONCE, f.nonce)] + [Capture(ISSUED_AT, f.issuedAt)];
    LineIntro("URI:", URI, r.uri, f.uri);
    VersionLiteral();
    LiteralMeans(VersionLine(), "Version: 1\n", []);
    LineIntro("Chain ID:", CHAIN_ID, r.chainId, f.chainId);
    NonceAndIssuedIntro(r, f);
    Cat4Intro(Line("URI:", URI, r.uri), VersionLine(), Line("Chain ID:", CHAIN_ID, r.chainId), NonceAndIssued(r),
              ("URI:" + " " + f.uri + "\n", "Version: 1\n", "Chain ID:" + " " + f.chainId + "\n", s3),
              ([Capture(URI, f.uri)], [], [Capture(CHAIN_ID, f.chainId)], c3));
    BodyLinesText(f);
    BodyCapturesParts(f);
  }

  lemma NonceAndIssuedIntro(r: FieldRules, f: Fields)
    requires r.Unkeyed() && InLanguage(r.nonce, f.nonce) && InLanguage(r.dateTime, f.issuedAt)
    ensures Means(NonceAndIssued(r), "Nonce:" + " " + f.nonce + "\n" + ("Issued At:" + " " + f.issuedAt),
                  [Capture(NONCE, f.nonce)] + [Capture(ISSUED_AT, f.issuedAt)])
  {
    LineIntro("Nonce:", NONCE, r.nonce, f.nonce);
    LabelledIntro("Issued At:", ISSUED_AT, r.dateTime, f.issuedAt);
    CatIntro(Line("Nonce:", NONCE, r.nonce), Labelled("Issued At:", ISSUED_AT, r.dateTime),
             "Nonce:" + " " + f.nonce + "\n", [Capture(NONCE, f.nonce)],
             "Issued At:" + " " + f.issuedAt, [Capture(ISSUED_AT, f.issuedAt)]);
  }

  lemma Assoc4(p: string, q: string, r: string, t: string)
    ensures p + q + r + t == p + (q + (r + t))
  {
  }

  lemma Prefixed4(a: seq<string>, b: seq<string>, c: seq<string>, d: seq<string>)
    ensures Prefixed(a + b + c + d) == Prefixed(a) + (Prefixed(b) + (Prefixed(c) + Prefixed(d)))
  {
    PrefixedConcat(a + b + c, d);
    PrefixedConcat(a + b, c);
    PrefixedConcat(a, b);
    Assoc4(Prefixed(a), Prefixed(b), Prefixed(c), Prefixed(d));
  }

  lemma TailText(f: Fields)
    ensures Prefixed(TailLines(f))
         == Prefixed(OptionalLine("Expiration Time: ", f.expirationAt))
             + (Prefixed(OptionalLine("Not Before: ", f.notBefore))
            + (Prefixed(OptionalLine("Request ID: ", f.requestId)) + Prefixed(ResourcesPart(f.resources))))
  {
    Prefixed4(OptionalLine("Expiration Time: ", f.expirationAt), OptionalLine("Not Before: ", f.notBefore),
              OptionalLine("Request ID: ", f.requestId), ResourcesPart(f.resources));
  }

  lemma TailTitles()
    ensures "Expiration Time:" + " " == "Expiration Time: " && "Not Before:" + " " == "Not Before: "
    ensures "Request ID:" + " " == "Request ID: "
  {
  }

  lemma TailElim(r: FieldRules, s: string, c: seq<Capture>) returns (f: Fields)
    requires r.Unkeyed() && Means(Tail(r), s, c)
    ensures s == Prefixed(TailLines(f)) && c == TailCaptures(f)
    ensures OptionalIn(r.dateTime, f.expirationAt) && OptionalIn(r.dateTime, f.notBefore)
            && OptionalIn(r.requestId, f.requestId)
    ensures f.resources.Some? ==> forall u <- f.resources.value :: InLanguage(r.uri, u)
  {
    TailTitles();
    var ss, cs := Cat4Elim(
      TailLine("Expiration Time:", EXPIRATION_AT, r.dateTime), TailLine("Not Before:", NOT_BEFORE, r.dateTime),
      TailLine("Request ID:", REQUEST_ID, r.requestId), ResourceLines(r.uri), s, c);
    var expirationAt := TailLineElim("Expiration Time:", EXPIRATION_AT, r.dateTime, ss.0, cs.0);
    var notBefore := TailLineElim("Not Before:", NOT_BEFORE, r.dateTime, ss.1, cs.1);
    var requestId := TailLineElim("Request ID:", REQUEST_ID, r.requestId, ss.2, cs.2);
    var resources := ResourceLinesElim(r.uri, ss.3, cs.3);
    f := Fields("", "", None, "", "", "", "", expirationAt, notBefore, requestId, resources);
    TailText(f);
    TailCapturesParts(f);
  }

  lemma TailCapturesParts(f: Fields)
    ensures TailCaptures(f)
         == OptionalCapture(EXPIRATION_AT, f.expirationAt) + (OptionalCapture(NOT_BEFORE, f.notBefore)
                               + (OptionalCapture(REQUEST_ID, f.requestId) + ResourcesCaptures(f.resources)))
  {
  }

  lemma TailIntro(r: FieldRules, f: Fields)
    requires r.Unkeyed()
    requires OptionalIn(r.dateTime, f.expirationAt) && OptionalIn(r.dateTime, f.notBefore)
             && OptionalIn(r.requestId, f.requestId)
    requires f.resources.Some? ==> forall u <- f.resources.value :: InLanguage(r.uri, u)
    ensures Means(Tail(r), Prefixed(TailLines(f)), TailCaptures(f))
  {
    TailTitles();
    TailLineIntro("Expiration Time:", EXPIRATION_AT, r.dateTime, f.expirationAt);
    TailLineIntro("Not Before:", NOT_BEFORE, r.dateTime, f.notBefore);
    TailLineIntro("Request ID:", REQUEST_ID, r.requestId, f.requestId);
    ResourceLinesIntro(r.uri, f.resources);
    Cat4Intro(
      TailLine("Expiration Time:", EXPIRATION_AT, r.dateTime), TailLine("Not Before:", NOT_BEFORE, r.dateTime),
      TailLine("Request ID:", REQUEST_ID, r.requestId), ResourceLines(r.uri),
      (Prefixed(OptionalLine("Expiration Time: ", f.expirationAt)), Prefixed(OptionalLine("Not Before: ", f.notBefore)),
       Prefixed(OptionalLine("Request ID: ", f.requestId)), Prefixed(ResourcesPart(f.resources))),
      (OptionalCapture(EXPIRATION_AT, f.expirationAt), OptionalCapture(NOT_BEFORE, f.notBefore),
       OptionalCapture(REQUEST_ID, f.requestId), ResourcesCaptures(f.resources)));
    TailText(f);
    TailCapturesParts(f);
  }

  // ------------------------------------------------- the grammar means: well-formed fields, printed

  function Combine(head: Fields, body: Fields, tail: Fields): Fields {
    Fields(head.authority, head.address, head.statement, body.uri, body.chainId, body.nonce, body.issuedAt,
           tail.expirationAt, tail.notBefore, tail.requestId, tail.resources)
  }

  lemma CombineParts(head: Fields, body: Fields, tail: Fields)
    ensures var f := Combine(head, body, tail);
            && Print(f) == Terminated(HeadLines(head)) + (BodyText(body) + Prefixed(TailLines(tail)))
            && Captures(f) == HeadCaptures(head) + (BodyCaptures(body) + TailCaptures(tail))
  {
    var f := Combine(head, body, tail);
    PrintParts(f);
    assert HeadCaptures(f) == HeadCaptures(head) && BodyCaptures(f) == BodyCaptures(body)
        && TailCaptures(f) == TailCaptures(tail);
  }

  lemma MessageElim(r: FieldRules, s: string, c: seq<Capture>) returns (f: Fields)
    requires r.Unkeyed() && Means(Message(r), s, c)
    ensures WellFormed(r, f) && s == Print(f) && c == Captures(f)
  {
    var s1, c1, s2, c2 := CatElim(Head(r), Cat(Body(r), Tail(r)), s, c);
    var s3, c3, s4, c4 := CatElim(Body(r), Tail(r), s2, c2);
    var head := HeadElim(r, s1, c1);
    var body := BodyElim(r, s3, c3);
    var tail := TailElim(r, s4, c4);
    CombineParts(head, body, tail);
    f := Combine(head, body, tail);
  }

  lemma {:induction false} Cat3Intro(a: Rule, b: Rule, c: Rule, s: string, t: string, u: string,
                                     j: seq<Capture>, k: seq<Capture>, l: seq<Capture>)
    requires Means(a, s, j) && Means(b, t, k) && Means(c, u, l)
    ensures Means(Cat(a, Cat(b, c)), s + (t + u), j + k + l)
  {
    CatIntro(b, c, t, k, u, l);
    CatIntro(a, Cat(b, c), s, j, t + u, k + l);
    assert j + (k + l) == j + k + l;
  }

  lemma {:induction false} MessageIntro(r: FieldRules, f: Fields)
    requires r.Unkeyed() && WellFormed(r, f)
    ensures Means(Message(r), Print(f), Captures(f))
  {
    HeadIntro(r, f);
    BodyIntro(r, f);
    TailIntro(r, f);
    Cat3Intro(Head(r), Body(r), Tail(r), Terminated(HeadLines(f)), BodyText(f), Prefixed(TailLines(f)),
              HeadCaptures(f), BodyCaptures(f), TailCaptures(f));
    PrintParts(f);
  }
}
