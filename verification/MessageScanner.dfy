/** A single pass over the lines of a sign-in message.  It never backtracks, and it finds exactly
    what the grammar derives: the same texts, and for each of them the same fields. */
module MessageScanner {
  import opened Wrappers
  import opened Strings
  import opened Abnf
  import opened Rfc3986
  import opened Iso8601
  import opened Eip4361

  // ------------------------------------------------- reading lines

  datatype TailFields = TailFields(
    expirationAt: Option<string>, notBefore: Option<string>, requestId: Option<string>, resources: Option<seq<string>>)

  /** The value of the first line when it has this title, and the lines after it. */
  function TakeTitled(title: string, ls: seq<string>): (Option<string>, seq<string>) {
    if ls != [] && title <= ls[0] then (Some(ls[0][|title|..]), ls[1..]) else (None, ls)
  }

  function TakeResourceList(ls: seq<string>): Option<seq<string>> {
    if ls == [] then Some([])
    else if !("- " <= ls[0]) then None
    else match TakeResourceList(ls[1..])
      case None => None
      case Some(rest) => Some([ls[0][2..]] + rest)
  }

  function TakeResources(ls: seq<string>): Option<Option<seq<string>>> {
    if ls == [] then Some(None)
    else if ls[0] != "Resources:" then None
    else match TakeResourceList(ls[1..])
      case None => None
      case Some(uris) => Some(Some(uris))
  }

  function ScanTail(ls: seq<string>): Option<TailFields> {
    var (expirationAt, ls1) := TakeTitled("Expiration Time: ", ls);
    var (notBefore, ls2) := TakeTitled("Not Before: ", ls1);
    var (requestId, ls3) := TakeTitled("Request ID: ", ls2);
    match TakeResources(ls3)
    case None => None
    case Some(resources) => Some(TailFields(expirationAt, notBefore, requestId, resources))
  }

  function ScanBody(authority: string, address: string, statement: Option<string>, ls: seq<string>): Option<Fields> {
    if |ls| < 5 || !("URI: " <= ls[0]) || ls[1] != "Version: 1" || !("Chain ID: " <= ls[2]) || !("Nonce: " <= ls[3])
       || !("Issued At: " <= ls[4])
    then None
    else match ScanTail(ls[5..])
      case None => None
      case Some(t) =>
        Some(Fields(authority, address, statement, ls[0][5..], ls[2][10..], ls[3][7..], ls[4][11..],
                    t.expirationAt, t.notBefore, t.requestId, t.resources))
  }

  predicate EndsWith(s: string, suffix: string) {
    |suffix| <= |s| && s[|s| - |suffix|..] == suffix
  }

  function ScanLines(ls: seq<string>): Option<Fields> {
    if |ls| < 5 || !EndsWith(ls[0], SIGN_IN_SUFFIX) || ls[2] != "" then None
    else
      var authority := ls[0][..|ls[0]| - |SIGN_IN_SUFFIX|];
      if ls[4] == "" then ScanBody(authority, ls[1], Some(ls[3]), ls[5..])
      else if ls[3] == "" then ScanBody(authority, ls[1], None, ls[4..])
      else None
  }

  // ------------------------------------------------- the lines determine the fields

  lemma {:induction false} TakeResourceListExact(ls: seq<string>, uris: seq<string>)
    ensures TakeResourceList(ls) == Some(uris) <==> ls == ResourceList(uris)
    decreases |ls| + |uris|
  {
    if ls != [] && "- " <= ls[0] {
      assert ls[0] == "- " + ls[0][2..];
      if uris != [] {
        TakeResourceListExact(ls[1..], uris[1..]);
        assert ResourceList(uris)[1..] == ResourceList(uris[1..]) && ResourceList(uris)[0] == "- " + uris[0];
        assert ls == [ls[0]] + ls[1..] && uris == [uris[0]] + uris[1..];
        assert ("- " + uris[0])[2..] == uris[0];
      }
    }
  }

  lemma TakeTitledSound(title: string, ls: seq<string>)
    ensures ls == OptionalLine(title, TakeTitled(title, ls).0) + TakeTitled(title, ls).1
  {
    if ls != [] && title <= ls[0] {
      assert ls[0] == title + ls[0][|title|..] && ls == [ls[0]] + ls[1..];
    }
  }

  predicate Untitled(title: string, ls: seq<string>) {
    ls == [] || !(title <= ls[0])
  }

  lemma TakeTitledComplete(title: string, v: Option<string>, rest: seq<string>)
    requires v.None? ==> Untitled(title, rest)
    ensures TakeTitled(title, OptionalLine(title, v) + rest) == (v, rest)
  {
    if v.Some? {
      var ls := [title + v.value] + rest;
      assert ls[1..] == rest && ls[0][|title|..] == v.value;
    } else {
      assert [] + rest == rest;
    }
  }

  lemma TakeResourcesExact(ls: seq<string>, resources: Option<seq<string>>)
    ensures TakeResources(ls) == Some(resources) <==> ls == ResourcesPart(resources)
  {
    if ls != [] && resources.Some? {
      TakeResourceListExact(ls[1..], resources.value);
      assert ls == [ls[0]] + ls[1..]
          && (["Resources:"] + ResourceList(resources.value))[1..] == ResourceList(resources.value);
    }
  }

  function TailLinesOf(t: TailFields): seq<string> {
    OptionalLine("Expiration Time: ", t.expirationAt) + (OptionalLine("Not Before: ", t.notBefore)
    + (OptionalLine("Request ID: ", t.requestId) + ResourcesPart(t.resources)))
  }

  lemma TitleDiffers(title: string, other: string, line: string, i: nat)
    requires i < |title| && i < |other| && title[i] != other[i] && other <= line
    ensures !(title <= line)
  {
    assert other[i] == line[i];
  }

  lemma UntitledTail(t: TailFields)
    ensures Untitled("Request ID: ", ResourcesPart(t.resources))
    ensures Untitled("Not Before: ", OptionalLine("Request ID: ", t.requestId) + ResourcesPart(t.resources))
    ensures Untitled("Expiration Time: ", OptionalLine("Not Before: ", t.notBefore)
                     + (OptionalLine("Request ID: ", t.requestId) + ResourcesPart(t.resources)))
  {
    TitleDiffers("Request ID: ", "Resources:", "Resources:", 2);
    TitleDiffers("Not Before: ", "Resources:", "Resources:", 0);
    TitleDiffers("Expiration Time: ", "Resources:", "Resources:", 0);
    if t.requestId.Some? {
      TitleDiffers("Not Before: ", "Request ID: ", "Request ID: " + t.requestId.value, 0);
      TitleDiffers("Expiration Time: ", "Request ID: ", "Request ID: " + t.requestId.value, 0);
    }
    if t.notBefore.Some? {
      TitleDiffers("Expiration Time: ", "Not Before: ", "Not Before: " + t.notBefore.value, 0);
    }
  }

  lemma ScanTailExact(ls: seq<string>, t: TailFields)
    ensures ScanTail(ls) == Some(t) <==> ls == TailLinesOf(t)
  {
    if ScanTail(ls) == Some(t) {
      var (expirationAt, ls1) := TakeTitled("Expiration Time: ", ls);
      var (notBefore, ls2) := TakeTitled("Not Before: ", ls1);
      var (requestId, ls3) := TakeTitled("Request ID: ", ls2);
      TakeTitledSound("Expiration Time: ", ls);
      TakeTitledSound("Not Before: ", ls1);
      TakeTitledSound("Request ID: ", ls2);
      TakeResourcesExact(ls3, t.resources);
    }
    if ls == TailLinesOf(t) {
      UntitledTail(t);
      var ls3 := ResourcesPart(t.resources);
      var ls2 := OptionalLine("Request ID: ", t.requestId) + ls3;
      var ls1 := OptionalLine("Not Before: ", t.notBefore) + ls2;
      TakeTitledComplete("Expiration Time: ", t.expirationAt, ls1);
      TakeTitledComplete("Not Before: ", t.notBefore, ls2);
      TakeTitledComplete("Request ID: ", t.requestId, ls3);
      TakeResourcesExact(ls3, t.resources);
    }
  }

  function BodyPart(f: Fields): seq<string> {
    BodyLines(f) + ["Issued At: " + f.issuedAt] + TailLines(f)
  }

  function TailOf(f: Fields): TailFields {
    TailFields(f.expirationAt, f.notBefore, f.requestId, f.resources)
  }

  lemma TailLinesText(f: Fields)
    ensures TailLines(f) == TailLinesOf(TailOf(f))
  {
  }

  lemma ScanBodySound(authority: string, address: string, statement: Option<string>, ls: seq<string>, f: Fields)
    requires ScanBody(authority, address, statement, ls) == Some(f)
    ensures f.authority == authority && f.address == address && f.statement == statement && ls == BodyPart(f)
  {
    ScanTailExact(ls[5..], TailOf(f));
    TailLinesText(f);
    assert ls[0] == "URI: " + f.uri && ls[2] == "Chain ID: " + f.chainId && ls[3] == "Nonce: " + f.nonce
        && ls[4] == "Issued At: " + f.issuedAt;
    assert ls == [ls[0], ls[1], ls[2], ls[3]] + [ls[4]] + ls[5..];
  }

  lemma ScanBodyComplete(f: Fields)
    ensures ScanBody(f.authority, f.address, f.statement, BodyPart(f)) == Some(f)
  {
    var ls := BodyPart(f);
    assert ls[5..] == TailLines(f);
    TailLinesText(f);
    ScanTailExact(ls[5..], TailOf(f));
    assert ls[0][5..] == f.uri && ls[2][10..] == f.chainId && ls[3][7..] == f.nonce && ls[4][11..] == f.issuedAt;
  }

  lemma MessageLinesParts(f: Fields)
    ensures MessageLines(f) == HeadLines(f) + BodyPart(f)
  {
  }

  lemma HeadLinesAre(f: Fields)
    ensures HeadLines(f)
         == match f.statement
            case None => [f.authority + SIGN_IN_SUFFIX, f.address, "", ""]
            case Some(statement) => [f.authority + SIGN_IN_SUFFIX, f.address, "", statement, ""]
  {
    if f.statement.Some? {
      assert "" + f.statement.value == f.statement.value;
    }
  }

  lemma SuffixCut(a: string, suffix: string)
    ensures EndsWith(a + suffix, suffix) && (a + suffix)[..|a + suffix| - |suffix|] == a
  {
  }

  lemma SuffixBack(s: string, suffix: string)
    requires EndsWith(s, suffix)
    ensures s == s[..|s| - |suffix|] + suffix
  {
  }

  lemma ScanLinesSound(ls: seq<string>, f: Fields)
    requires ScanLines(ls) == Some(f)
    ensures ls == HeadLines(f) + BodyPart(f)
  {
    var authority := ls[0][..|ls[0]| - |SIGN_IN_SUFFIX|];
    SuffixBack(ls[0], SIGN_IN_SUFFIX);
    HeadLinesAre(f);
    if ls[4] == "" {
      ScanBodySound(authority, ls[1], Some(ls[3]), ls[5..], f);
      assert ls == [ls[0], ls[1], ls[2], ls[3], ls[4]] + ls[5..];
    } else {
      ScanBodySound(authority, ls[1], None, ls[4..], f);
      assert ls == [ls[0], ls[1], ls[2], ls[3]] + ls[4..];
    }
  }

  lemma ScanLinesComplete(f: Fields)
    ensures ScanLines(HeadLines(f) + BodyPart(f)) == Some(f)
  {
    var ls := HeadLines(f) + BodyPart(f);
    ScanBodyComplete(f);
    HeadLinesAre(f);
    SuffixCut(f.authority, SIGN_IN_SUFFIX);
    if f.statement.Some? {
      assert ls[5..] == BodyPart(f);
    } else {
      assert ls[4..] == BodyPart(f) && ls[4] == "URI: " + f.uri;
    }
  }

  /** The scanner reads back exactly the lines of the fields: the layout loses nothing. */
  lemma ScanLinesExact(ls: seq<string>, f: Fields)
    ensures ScanLines(ls) == Some(f) <==> ls == MessageLines(f)
  {
    MessageLinesParts(f);
    if ScanLines(ls) == Some(f) {
      ScanLinesSound(ls, f);
    }
    ScanLinesComplete(f);
  }

  // ------------------------------------------------- the scanner and the grammar

  predicate OptionalAccepted(r: Rule, v: Option<string>) {
    v.Some? ==> Accepts(r, v.value)
  }

  predicate FieldsAccepted(r: FieldRules, f: Fields) {
    && Accepts(r.authority, f.authority)
    && Accepts(r.address, f.address)
    && OptionalAccepted(r.statement, f.statement)
    && Accepts(r.uri, f.uri)
    && Accepts(r.chainId, f.chainId)
    && Accepts(r.nonce, f.nonce)
    && Accepts(r.dateTime, f.issuedAt)
    && OptionalAccepted(r.dateTime, f.expirationAt)
    && OptionalAccepted(r.dateTime, f.notBefore)
    && OptionalAccepted(r.requestId, f.requestId)
    && (f.resources.Some? ==> forall u <- f.resources.value :: Accepts(r.uri, u))
  }

  /** Read the lines, then check each field on its own. */
  function Scan(r: FieldRules, s: string): Option<Fields> {
    match ScanLines(Split(s, '\n'))
    case None => None
    case Some(f) => if FieldsAccepted(r, f) then Some(f) else None
  }

  lemma FieldsAcceptedExact(r: FieldRules, f: Fields)
    requires r.AllProper()
    ensures FieldsAccepted(r, f) <==> WellFormed(r, f)
  {
    AcceptsExact(r.authority, f.authority);
    AcceptsExact(r.address, f.address);
    if f.statement.Some? { AcceptsExact(r.statement, f.statement.value); }
    AcceptsExact(r.uri, f.uri);
    AcceptsExact(r.chainId, f.chainId);
    AcceptsExact(r.nonce, f.nonce);
    AcceptsExact(r.dateTime, f.issuedAt);
    if f.expirationAt.Some? { AcceptsExact(r.dateTime, f.expirationAt.value); }
    if f.notBefore.Some? { AcceptsExact(r.dateTime, f.notBefore.value); }
    if f.requestId.Some? { AcceptsExact(r.requestId, f.requestId.value); }
    if f.resources.Some? {
      forall u <- f.resources.value ensures Accepts(r.uri, u) <==> InLanguage(r.uri, u) { AcceptsExact(r.uri, u); }
    }
  }

  lemma AvoidsLanguage(r: Rule, ch: char, s: string)
    requires Avoids(r, ch) && InLanguage(r, s)
    ensures ch !in s
  {
    var c :| Means(r, s, c);
    AvoidsSound(r, ch, s, c);
  }

  lemma {:induction false} ResourceListFree(uris: seq<string>)
    requires forall u <- uris :: '\n' !in u
    ensures Free(ResourceList(uris), '\n')
  {
    if uris != [] {
      ResourceListFree(uris[1..]);
    }
  }

  lemma FreeConcat(a: seq<string>, b: seq<string>, sep: char)
    requires Free(a, sep) && Free(b, sep)
    ensures Free(a + b, sep)
  {
  }

  lemma OptionalFree(title: string, r: Rule, v: Option<string>)
    requires Avoids(r, '\n') && OptionalIn(r, v) && '\n' !in title
    ensures Free(OptionalLine(title, v), '\n')
  {
    if v.Some? { AvoidsLanguage(r, '\n', v.value); }
  }

  lemma SuffixFree(authority: string)
    requires '\n' !in authority
    ensures '\n' !in authority + SIGN_IN_SUFFIX
  {
    assert '\n' !in "wants you to sign in " && '\n' !in "with your LikeCoin " && '\n' !in "account:";
  }

  lemma HeadFree(r: FieldRules, f: Fields)
    requires r.OneLine() && WellFormed(r, f)
    ensures Free(HeadLines(f), '\n')
  {
    AvoidsLanguage(r.authority, '\n', f.authority);
    AvoidsLanguage(r.address, '\n', f.address);
    OptionalFree("", r.statement, f.statement);
    var first := [f.authority + SIGN_IN_SUFFIX, f.address, ""];
    assert Free(first, '\n') by { SuffixFree(f.authority); }
    FreeConcat(first, OptionalLine("", f.statement), '\n');
    FreeConcat(first + OptionalLine("", f.statement), [""], '\n');
  }

  lemma BodyFree(r: FieldRules, f: Fields)
    requires r.OneLine() && WellFormed(r, f)
    ensures Free(BodyLines(f) + ["Issued At: " + f.issuedAt], '\n')
  {
    AvoidsLanguage(r.uri, '\n', f.uri);
    AvoidsLanguage(r.chainId, '\n', f.chainId);
    AvoidsLanguage(r.nonce, '\n', f.nonce);
    AvoidsLanguage(r.dateTime, '\n', f.issuedAt);
  }

  lemma ResourcesFree(r: FieldRules, f: Fields)
    requires r.OneLine() && WellFormed(r, f)
    ensures Free(ResourcesPart(f.resources), '\n')
  {
    if f.resources.Some? {
      forall u <- f.resources.value ensures '\n' !in u { AvoidsLanguage(r.uri, '\n', u); }
      ResourceListFree(f.resources.value);
      FreeConcat(["Resources:"], ResourceList(f.resources.value), '\n');
    }
  }

  lemma TailFree(r: FieldRules, f: Fields)
    requires r.OneLine() && WellFormed(r, f)
    ensures Free(TailLines(f), '\n')
  {
    var a, b := OptionalLine("Expiration Time: ", f.expirationAt), OptionalLine("Not Before: ", f.notBefore);
    var c := OptionalLine("Request ID: ", f.requestId);
    OptionalFree("Expiration Time: ", r.dateTime, f.expirationAt);
    OptionalFree("Not Before: ", r.dateTime, f.notBefore);
    OptionalFree("Request ID: ", r.requestId, f.requestId);
    ResourcesFree(r, f);
    FreeConcat(a, b, '\n');
    FreeConcat(a + b, c, '\n');
    FreeConcat(a + b + c, ResourcesPart(f.resources), '\n');
  }

  /** No field of a well-formed message holds a line feed, so the lines are what splitting finds. */
  lemma LinesFree(r: FieldRules, f: Fields)
    requires r.OneLine() && WellFormed(r, f)
    ensures Free(MessageLines(f), '\n')
  {
    HeadFree(r, f);
    BodyFree(r, f);
    TailFree(r, f);
    FreeConcat(BodyLines(f) + ["Issued At: " + f.issuedAt], TailLines(f), '\n');
    FreeConcat(HeadLines(f), BodyPart(f), '\n');
    MessageLinesParts(f);
  }

  lemma ScanExact(r: FieldRules, s: string, f: Fields)
    requires r.OneLine() && r.AllProper()
    ensures Scan(r, s) == Some(f) <==> WellFormed(r, f) && s == Print(f)
  {
    FieldsAcceptedExact(r, f);
    if Scan(r, s) == Some(f) {
      ScanLinesExact(Split(s, '\n'), f);
      JoinSplit(s, '\n');
    }
    if WellFormed(r, f) && s == Print(f) {
      LinesFree(r, f);
      SplitJoin(MessageLines(f), '\n');
      ScanLinesExact(Split(s, '\n'), f);
    }
  }

  /** Printed fields are found again, or refused, whatever they hold as long as it stays on its line. */
  lemma ScanOfPrint(r: FieldRules, f: Fields)
    requires r.OneLine() && r.AllProper() && Free(MessageLines(f), '\n')
    ensures Scan(r, Print(f)) == if WellFormed(r, f) then Some(f) else None
  {
    FieldsAcceptedExact(r, f);
    SplitJoin(MessageLines(f), '\n');
    ScanLinesExact(MessageLines(f), f);
  }

  // ------------------------------------------------- the grammar of this server

  lemma PlainSmallFields()
    ensures Plain(AddressRule()) && Plain(ChainIdRule()) && Plain(NonceRule()) && Plain(RequestIdRule())
  {
    PlainChars();
    PlainPchar();
  }

  lemma StatementRuleFits()
    ensures Keyless(StatementRule()) && Avoids(StatementRule(), '\n') && Proper(StatementRule())
  {
    PlainChars();
    assert Keyless(Reserved()) && Avoids(Reserved(), '\n') && Proper(Reserved()) && !Nullable(Reserved());
  }

  lemma PlainRulesFit(r: FieldRules)
    requires Plain(r.authority) && Plain(r.address) && Plain(r.uri) && Plain(r.chainId)
    requires Plain(r.nonce) && Plain(r.dateTime) && Plain(r.requestId)
    requires Keyless(r.statement) && Avoids(r.statement, '\n') && Proper(r.statement)
    ensures r.Unkeyed() && r.OneLine() && r.AllProper()
  {
  }

  lemma LikecoinRulesFit()
    ensures LikecoinRules().Unkeyed() && LikecoinRules().OneLine() && LikecoinRules().AllProper()
  {
    PlainAuthority();
    PlainUri();
    PlainDateTime();
    PlainSmallFields();
    StatementRuleFits();
    PlainRulesFit(LikecoinRules());
  }

  lemma PlainLanguage(r: Rule, s: string)
    requires Plain(r) && InLanguage(r, s)
    ensures ' ' !in s && '\n' !in s
  {
    AvoidsLanguage(r, ' ', s);
    AvoidsLanguage(r, '\n', s);
  }

  /** No URI, authority, run of path characters or date-time holds a space or a line feed: the
      separators of the message cannot occur inside these fields. */
  lemma NoSeparatorInside(s: string)
    ensures InLanguage(Uri(), s) || InLanguage(Authority(), s) || InLanguage(Segment(), s) || InLanguage(DateTime(), s)
            ==> ' ' !in s && '\n' !in s
  {
    PlainUri();
    PlainAuthority();
    PlainDateTime();
    PlainSmallFields();
    assert Segment() == RequestIdRule();
    if InLanguage(Uri(), s) {
      PlainLanguage(Uri(), s);
    } else if InLanguage(Authority(), s) {
      PlainLanguage(Authority(), s);
    } else if InLanguage(Segment(), s) {
      PlainLanguage(Segment(), s);
    } else if InLanguage(DateTime(), s) {
      PlainLanguage(DateTime(), s);
    }
  }

  /** The single pass agrees with the message grammar over any field rules that stay on their line. */
  lemma ScanIsMessage(r: FieldRules, s: string, c: seq<Capture>)
    requires r.Unkeyed() && r.OneLine() && r.AllProper()
    ensures Means(Message(r), s, c) <==> Scan(r, s).Some? && c == Captures(Scan(r, s).value)
  {
    if Means(Message(r), s, c) {
      var f := MessageElim(r, s, c);
      ScanExact(r, s, f);
    }
    if Scan(r, s).Some? && c == Captures(Scan(r, s).value) {
      var f := Scan(r, s).value;
      ScanExact(r, s, f);
      MessageIntro(r, f);
    }
  }

  /** The single pass agrees with the grammar on every text: it accepts the derivable texts,
      and the captures of any derivation are those of the fields it found. */
  lemma ScanIsGrammar(s: string, c: seq<Capture>)
    ensures Means(AuthenticationMessage(), s, c)
       <==> Scan(LikecoinRules(), s).Some? && c == Captures(Scan(LikecoinRules(), s).value)
  {
    LikecoinRulesFit();
    ScanIsMessage(LikecoinRules(), s, c);
  }

  /** The grammar is unambiguous: a text has at most one assignment of keyed fields, and the
      fields behind the captures, absent ones included, are determined by the text. */
  lemma Unambiguous(s: string, c: seq<Capture>, d: seq<Capture>, f: Fields, g: Fields)
    requires Means(AuthenticationMessage(), s, c) && Means(AuthenticationMessage(), s, d)
    requires WellFormed(LikecoinRules(), f) && s == Print(f)
    requires WellFormed(LikecoinRules(), g) && s == Print(g)
    ensures c == d == Captures(f) && f == g
  {
    ScanIsGrammar(s, c);
    ScanIsGrammar(s, d);
    LikecoinRulesFit();
    ScanExact(LikecoinRules(), s, f);
    ScanExact(LikecoinRules(), s, g);
  }
}
