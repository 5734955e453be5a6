/** The sign-in message from end to end: the text the client composes and what the server reads from it. */
module SignIn {
  import opened Wrappers
  import opened Strings
  import opened Calendar
  import opened Timestamps
  import opened Abnf
  import opened Rfc3986
  import opened TimeTexts
  import opened Iso8601
  import opened Eip4361
  import opened MessageScanner
  import opened Languages
  import opened UriForms
  import opened FieldTexts

  // ------------------------------------------------- the server's reading

  datatype MessageData = MessageData(
    authority: string, address: string, statement: string, uri: string, chainId: string, nonce: string,
    issuedAt: Timestamp, expirationAt: Timestamp, notBefore: Timestamp, requestId: string, resources: seq<string>)

  /** Go's zero time, 1 January of year 1. */
  const ZERO_TIME: Timestamp := Timestamp(FirstDay(1) * DAY * SECOND, 0)
  const EMPTY: MessageData := MessageData("", "", "", "", "", "", ZERO_TIME, ZERO_TIME, ZERO_TIME, "", [])

  /** `Panicked` is the nil dereference of a message without a statement. */
  datatype Outcome = Parsed | Rejected | BadTime | Panicked

  /** `tree.Child(key)`: the text of the first part with this key. */
  function Child(tree: seq<Capture>, key: nat): Option<string> {
    if tree == [] then None
    else if tree[0].key == key then Some(tree[0].text)
    else Child(tree[1..], key)
  }

  /** `tree.Children(key)`: the texts of all parts with this key. */
  function Children(tree: seq<Capture>, key: nat): seq<string> {
    if tree == [] then []
    else (if tree[0].key == key then [tree[0].text] else []) + Children(tree[1..], key)
  }

  function Blanks(n: nat): (s: seq<string>)
    ensures |s| == n && forall x <- s :: x == ""
  {
    if n == 0 then [] else [""] + Blanks(n - 1)
  }

  function Uris(f: Fields): seq<string> {
    match f.resources case None => [] case Some(uris) => uris
  }

  /** What the server makes of the fields of an accepted message, starting from the data `d`. */
  function Read(f: Fields, d: MessageData): (Outcome, MessageData) {
    var d1 := d.(authority := f.authority, address := f.address);
    if f.statement.None? then (Panicked, d1)
    else
      var d2 := d1.(statement := f.statement.value, uri := f.uri, chainId := f.chainId, nonce := f.nonce);
      if Parse(f.issuedAt).None? then (BadTime, d2)
      else
        var d3 := d2.(issuedAt := Parse(f.issuedAt).value);
        if f.expirationAt.Some? && Parse(f.expirationAt.value).None? then (BadTime, d3)
        else
          var d4 := if f.expirationAt.Some? then d3.(expirationAt := Parse(f.expirationAt.value).value) else d3;
          if f.notBefore.Some? && Parse(f.notBefore.value).None? then (BadTime, d4)
          else
            var d5 := if f.notBefore.Some? then d4.(notBefore := Parse(f.notBefore.value).value) else d4;
            var d6 := if f.requestId.Some? then d5.(requestId := f.requestId.value) else d5;
            (Parsed, d6.(resources := Blanks(|Uris(f)|) + Uris(f)))
  }

  function ReadBy(r: FieldRules, message: string, d: MessageData): (Outcome, MessageData) {
    match Scan(r, message)
    case None => (Rejected, d)
    case Some(f) => Read(f, d)
  }

  function ReadText(message: string, d: MessageData): (Outcome, MessageData) {
    ReadBy(LikecoinRules(), message, d)
  }

  /** The slice is made with a length instead of a capacity, so as many blanks come first. */
  method CollectResources(resourceTrees: seq<string>) returns (resources: seq<string>)
    ensures resources == Blanks(|resourceTrees|) + resourceTrees
  {
    resources := Blanks(|resourceTrees|);
    for i := 0 to |resourceTrees|
      invariant resources == Blanks(|resourceTrees|) + resourceTrees[..i]
    {
      resources := resources + [resourceTrees[i]];
    }
  }

  class AuthenticationMessage {
    var data: MessageData

    constructor ()
      ensures data == EMPTY
    {
      data := EMPTY;
    }

    /** Texts that are no messages are rejected; of a message the outcome and the data follow from its fields. */
    method ParseAbnf(message: string) returns (outcome: Outcome)
      modifies this
      ensures (outcome, data) == ReadText(message, old(data))
      ensures Reads(message, old(data), outcome, data)
    {
      MessageRead(message, data);
      var parse := Scan(LikecoinRules(), message);
      if parse.None? {
        return Rejected;
      }
      ghost var f := parse.value;
      var tree := Captures(parse.value);
      ChildOfMessage(f);
      data := data.(authority := Child(tree, AUTHORITY).value);
      data := data.(address := Child(tree, ADDRESS).value);
      var statement := Child(tree, STATEMENT);
      if statement.None? {
        return Panicked;
      }
      data := data.(statement := statement.value);
      data := data.(uri := Child(tree, URI).value);
      data := data.(chainId := Child(tree, CHAIN_ID).value);
      data := data.(nonce := Child(tree, NONCE).value);
      var issuedAt := Parse(Child(tree, ISSUED_AT).value);
      if issuedAt.None? {
        return BadTime;
      }
      data := data.(issuedAt := issuedAt.value);
      var expirationAt := Child(tree, EXPIRATION_AT);
      if expirationAt.Some? {
        var time := Parse(expirationAt.value);
        if time.None? {
          return BadTime;
        }
        data := data.(expirationAt := time.value);
      }
      var notBefore := Child(tree, NOT_BEFORE);
      if notBefore.Some? {
        var time := Parse(notBefore.value);
        if time.None? {
          return BadTime;
        }
        data := data.(notBefore := time.value);
      }
      var requestId := Child(tree, REQUEST_ID);
      if requestId.Some? {
        data := data.(requestId := requestId.value);
      }
      var resources := CollectResources(Children(tree, RESOURCE));
      data := data.(resources := resources);
      return Parsed;
    }
  }

  lemma {:induction false} ChildConcat(a: seq<Capture>, b: seq<Capture>, key: nat)
    ensures Child(a + b, key) == (if Child(a, key).Some? then Child(a, key) else Child(b, key))
    ensures Children(a + b, key) == Children(a, key) + Children(b, key)
  {
    ChildrenConcat(a, b, key);
    if a == [] {
      assert a + b == b;
    } else {
      ChildConcat(a[1..], b, key);
      assert (a + b)[1..] == a[1..] + b;
    }
  }

  lemma {:induction false} ChildrenConcat(a: seq<Capture>, b: seq<Capture>, key: nat)
    ensures Children(a + b, key) == Children(a, key) + Children(b, key)
  {
    if a == [] {
      assert a + b == b;
    } else {
      ChildrenConcat(a[1..], b, key);
      assert (a + b)[1..] == a[1..] + b;
      Regrouped(if a[0].key == key then [a[0].text] else [], Children(a[1..], key), Children(b, key));
    }
  }

  lemma Regrouped(a: seq<string>, b: seq<string>, c: seq<string>)
    ensures a + (b + c) == a + b + c
  {
  }

  lemma {:induction false} ResourceChildren(uris: seq<string>, key: nat)
    ensures key != RESOURCE ==> Child(ResourceCaptures(uris), key) == None
    ensures Children(ResourceCaptures(uris), RESOURCE) == uris
  {
    if uris != [] {
      ResourceChildren(uris[1..], key);
      assert ResourceCaptures(uris)[1..] == ResourceCaptures(uris[1..]);
    }
  }

  lemma OptionalChild(own: nat, v: Option<string>, key: nat)
    ensures Child(OptionalCapture(own, v), key) == (if own == key then v else None)
    ensures own != RESOURCE ==> Children(OptionalCapture(own, v), RESOURCE) == []
  {
  }

  lemma TailChildren(f: Fields, key: nat)
    requires key < RESOURCES
    ensures Child(TailCaptures(f), key)
         == (if key == EXPIRATION_AT then f.expirationAt else if key == NOT_BEFORE then f.notBefore
             else if key == REQUEST_ID then f.requestId else None)
    ensures Children(TailCaptures(f), RESOURCE) == Uris(f)
  {
    var a, b := OptionalCapture(EXPIRATION_AT, f.expirationAt), OptionalCapture(NOT_BEFORE, f.notBefore);
    var c, d := OptionalCapture(REQUEST_ID, f.requestId), ResourcesCaptures(f.resources);
    ChildConcat(a + b + c, d, key);
    ChildConcat(a + b, c, key);
    ChildConcat(a, b, key);
    ChildConcat(a + b + c, d, RESOURCE);
    ChildConcat(a + b, c, RESOURCE);
    ChildConcat(a, b, RESOURCE);
    OptionalChild(EXPIRATION_AT, f.expirationAt, key);
    OptionalChild(NOT_BEFORE, f.notBefore, key);
    OptionalChild(REQUEST_ID, f.requestId, key);
    if f.resources.Some? {
      ResourceChildren(f.resources.value, key);
      assert d[1..] == ResourceCaptures(f.resources.value);
    }
  }

  lemma HeadChildren(f: Fields, key: nat)
    ensures Child(HeadCaptures(f), key)
         == (if key == AUTHORITY then Some(f.authority) else if key == ADDRESS then Some(f.address)
             else if key == STATEMENT then f.statement else None)
    ensures Children(HeadCaptures(f), RESOURCE) == []
  {
    var first := [Capture(AUTHORITY, f.authority), Capture(ADDRESS, f.address)];
    assert first[1..] == [Capture(ADDRESS, f.address)];
    ChildConcat(first, OptionalCapture(STATEMENT, f.statement), key);
    ChildConcat(first, OptionalCapture(STATEMENT, f.statement), RESOURCE);
    OptionalChild(STATEMENT, f.statement, key);
  }

  lemma PairChildren(a: Capture, b: Capture, key: nat)
    ensures Child([a, b], key) == (if a.key == key then Some(a.text) else if b.key == key then Some(b.text) else None)
    ensures a.key != key && b.key != key ==> Children([a, b], key) == []
  {
    assert [a, b][1..] == [b] && [b][1..] == [];
    assert Child([], key) == None && Children([], key) == [];
    assert Child([b], key) == (if b.key == key then Some(b.text) else None);
    assert Children([b], key) == (if b.key == key then [b.text] else []) + Children([], key);
  }

  lemma BodyChildren(f: Fields, key: nat)
    ensures Child(BodyCaptures(f), key)
         == (if key == URI then Some(f.uri) else if key == CHAIN_ID then Some(f.chainId)
             else if key == NONCE then Some(f.nonce) else if key == ISSUED_AT then Some(f.issuedAt) else None)
    ensures Children(BodyCaptures(f), RESOURCE) == []
  {
    var first, last := [Capture(URI, f.uri), Capture(CHAIN_ID, f.chainId)],
                       [Capture(NONCE, f.nonce), Capture(ISSUED_AT, f.issuedAt)];
    assert BodyCaptures(f) == first + last;
    PairChildren(first[0], first[1], key);
    PairChildren(last[0], last[1], key);
    PairChildren(first[0], first[1], RESOURCE);
    PairChildren(last[0], last[1], RESOURCE);
    ChildConcat(first, last, key);
    ChildConcat(first, last, RESOURCE);
  }

  lemma MessageChild(f: Fields, key: nat)
    requires key < RESOURCES
    ensures Child(Captures(f), key)
         == (if Child(HeadCaptures(f), key).Some? then Child(HeadCaptures(f), key)
             else if Child(BodyCaptures(f), key).Some? then Child(BodyCaptures(f), key)
             else Child(TailCaptures(f), key))
    ensures Children(Captures(f), RESOURCE) == Uris(f)
  {
    ChildConcat(HeadCaptures(f) + BodyCaptures(f), TailCaptures(f), key);
    ChildConcat(HeadCaptures(f), BodyCaptures(f), key);
    ChildConcat(HeadCaptures(f) + BodyCaptures(f), TailCaptures(f), RESOURCE);
    ChildConcat(HeadCaptures(f), BodyCaptures(f), RESOURCE);
    HeadChildren(f, key);
    BodyChildren(f, key);
    TailChildren(f, key);
  }

  /** Every keyed part is read back as the field it was derived for. */
  lemma ChildOfMessage(f: Fields)
    ensures var tree := Captures(f);
            && Child(tree, AUTHORITY) == Some(f.authority) && Child(tree, ADDRESS) == Some(f.address)
            && Child(tree, STATEMENT) == f.statement && Child(tree, URI) == Some(f.uri)
            && Child(tree, CHAIN_ID) == Some(f.chainId) && Child(tree, NONCE) == Some(f.nonce)
            && Child(tree, ISSUED_AT) == Some(f.issuedAt) && Child(tree, EXPIRATION_AT) == f.expirationAt
            && Child(tree, NOT_BEFORE) == f.notBefore && Child(tree, REQUEST_ID) == f.requestId
            && Children(tree, RESOURCE) == Uris(f)
  {
    forall key: nat | key < RESOURCES
      ensures Child(Captures(f), key)
           == (if Child(HeadCaptures(f), key).Some? then Child(HeadCaptures(f), key)
               else if Child(BodyCaptures(f), key).Some? then Child(BodyCaptures(f), key)
               else Child(TailCaptures(f), key))
      ensures Child(HeadCaptures(f), key)
           == (if key == AUTHORITY then Some(f.authority) else if key == ADDRESS then Some(f.address)
               else if key == STATEMENT then f.statement else None)
      ensures Child(BodyCaptures(f), key)
           == (if key == URI then Some(f.uri) else if key == CHAIN_ID then Some(f.chainId)
               else if key == NONCE then Some(f.nonce) else if key == ISSUED_AT then Some(f.issuedAt) else None)
      ensures Child(TailCaptures(f), key)
           == (if key == EXPIRATION_AT then f.expirationAt else if key == NOT_BEFORE then f.notBefore
               else if key == REQUEST_ID then f.requestId else None)
    {
      MessageChild(f, key);
      HeadChildren(f, key);
      BodyChildren(f, key);
      TailChildren(f, key);
    }
    MessageChild(f, URI);
  }

  // ------------------------------------------------- what an accepted message gives

  lemma AcceptedIsScanned(s: string)
    ensures InLanguage(Eip4361.AuthenticationMessage(), s) <==> Scan(LikecoinRules(), s).Some?
  {
    if InLanguage(Eip4361.AuthenticationMessage(), s) {
      var c :| Means(Eip4361.AuthenticationMessage(), s, c);
      ScanIsGrammar(s, c);
    }
    if Scan(LikecoinRules(), s).Some? {
      ScanIsGrammar(s, Captures(Scan(LikecoinRules(), s).value));
    }
  }

  /** The fifth line of a message is the empty one behind the statement, or else already the URI line. */
  predicate LacksStatement(s: string) {
    var lines := Split(s, '\n');
    |lines| > 4 && lines[4] != ""
  }

  lemma StatementLine(ls: seq<string>)
    requires ScanLines(ls).Some?
    ensures |ls| > 4 && (ScanLines(ls).value.statement.None? <==> ls[4] != "")
  {
    var authority := ls[0][..|ls[0]| - |SIGN_IN_SUFFIX|];
    if ls[4] == "" {
      ScanBodySound(authority, ls[1], Some(ls[3]), ls[5..], ScanLines(ls).value);
    } else {
      ScanBodySound(authority, ls[1], None, ls[4..], ScanLines(ls).value);
    }
  }

  lemma ScannedLines(r: FieldRules, s: string)
    requires Scan(r, s).Some?
    ensures ScanLines(Split(s, '\n')) == Scan(r, s)
    ensures |Split(s, '\n')| > 4 && (Scan(r, s).value.statement.None? <==> LacksStatement(s))
  {
    StatementLine(Split(s, '\n'));
  }

  lemma PanicsBy(r: FieldRules, s: string, d: MessageData)
    ensures ReadBy(r, s, d).0 == Panicked <==> Scan(r, s).Some? && LacksStatement(s)
  {
    if Scan(r, s).Some? {
      ScannedLines(r, s);
    }
  }

  /** Reading a message panics exactly when it is accepted and has no statement line. */
  lemma PanicsExact(s: string, d: MessageData)
    ensures ReadText(s, d).0 == Panicked <==> InLanguage(Eip4361.AuthenticationMessage(), s) && LacksStatement(s)
  {
    AcceptedIsScanned(s);
    PanicsBy(LikecoinRules(), s, d);
  }

  /** The print of well-formed fields is read as these fields. */
  lemma PrintIsRead(r: FieldRules, f: Fields, d: MessageData)
    requires r.OneLine() && r.AllProper() && WellFormed(r, f)
    ensures Scan(r, Print(f)) == Some(f) && ReadBy(r, Print(f), d) == Read(f, d)
  {
    ScanExact(r, Print(f), f);
  }

  /** Every time in the message has an existing date and a time of day in range. */
  predicate TimesInRange(f: Fields) {
    && StampInRange(f.issuedAt)
    && (f.expirationAt.Some? ==> StampInRange(f.expirationAt.value))
    && (f.notBefore.Some? ==> StampInRange(f.notBefore.value))
  }

  lemma OneTimeParses(r: Rule, v: Option<string>)
    requires r == DateTime() && OptionalIn(r, v) && v.Some?
    ensures Parse(v.value).Some? <==> StampInRange(v.value)
  {
    DateTimeRead(v.value);
  }

  predicate TimesRead(f: Fields) {
    && Parse(f.issuedAt).Some?
    && (f.expirationAt.Some? ==> Parse(f.expirationAt.value).Some?)
    && (f.notBefore.Some? ==> Parse(f.notBefore.value).Some?)
  }

  lemma ReadOutcome(f: Fields, d: MessageData)
    requires f.statement.Some?
    ensures Read(f, d).0 == if TimesRead(f) then Parsed else BadTime
  {
  }

  lemma TimesParse(r: FieldRules, f: Fields)
    requires r.dateTime == DateTime() && WellFormed(r, f)
    ensures TimesRead(f) <==> TimesInRange(f)
  {
    OneTimeParses(r.dateTime, Some(f.issuedAt));
    if f.expirationAt.Some? {
      OneTimeParses(r.dateTime, f.expirationAt);
    }
    if f.notBefore.Some? {
      OneTimeParses(r.dateTime, f.notBefore);
    }
  }

  lemma OutcomeBy(r: FieldRules, s: string, d: MessageData)
    requires r.OneLine() && r.AllProper() && r.dateTime == DateTime()
    ensures ReadBy(r, s, d).0
         == if Scan(r, s).None? then Rejected
            else if LacksStatement(s) then Panicked
            else if TimesInRange(Scan(r, s).value) then Parsed else BadTime
  {
    PanicsBy(r, s, d);
    if Scan(r, s).Some? && !LacksStatement(s) {
      ScanExact(r, s, Scan(r, s).value);
      ScannedLines(r, s);
      TimesParse(r, Scan(r, s).value);
      ReadOutcome(Scan(r, s).value, d);
    }
  }

  /** What comes of any text: a rejection exactly for texts outside the grammar, and for the others the
      panic, an unreadable time, or success. */
  lemma OutcomeExact(s: string, d: MessageData)
    ensures ReadText(s, d).0
         == if !InLanguage(Eip4361.AuthenticationMessage(), s) then Rejected
            else if LacksStatement(s) then Panicked
            else if Scan(LikecoinRules(), s).Some? && TimesInRange(Scan(LikecoinRules(), s).value) then Parsed
            else BadTime
  {
    AcceptedIsScanned(s);
    LikecoinRulesFit();
    OutcomeBy(LikecoinRules(), s, d);
  }

  // ------------------------------------------------- what is read, field by field

  /** Whether the text is a message of the server's, said without its rules. */
  ghost predicate IsMessage(s: string) { exists f :: FieldsFit(f) && s == Print(f) }

  ghost predicate IsTime(text: string, t: Timestamp) { IsDateTime(text) && StampInRange(text) && t == Moment(text) }

  /** The time of the line, or the one from before when there is no such line. */
  ghost predicate IsOptionalTime(text: Option<string>, before: Timestamp, t: Timestamp) {
    match text case None => t == before case Some(time) => IsTime(time, t)
  }

  ghost predicate HeadStored(f: Fields, e: MessageData) {
    && e.authority == f.authority && e.address == f.address && f.statement == Some(e.statement)
    && e.uri == f.uri && e.chainId == f.chainId && e.nonce == f.nonce
  }

  /** The data after a message has been read: each field in its place. */
  ghost predicate Stored(f: Fields, d: MessageData, e: MessageData) {
    && HeadStored(f, e) && IsTime(f.issuedAt, e.issuedAt)
    && IsOptionalTime(f.expirationAt, d.expirationAt, e.expirationAt)
    && IsOptionalTime(f.notBefore, d.notBefore, e.notBefore)
    && e.requestId == (if f.requestId.Some? then f.requestId.value else d.requestId)
    && e.resources == Blanks(|Uris(f)|) + Uris(f)
  }

  /** What comes of a message with these fields. */
  ghost predicate Follows(f: Fields, d: MessageData, outcome: Outcome, e: MessageData) {
    && outcome != Rejected && (outcome == Panicked <==> f.statement.None?)
    && (outcome == Parsed <==> f.statement.Some? && TimesInRange(f))
    && (outcome == Panicked ==> e == d.(authority := f.authority, address := f.address))
    && (outcome == BadTime ==> HeadStored(f, e) && e.requestId == d.requestId && e.resources == d.resources)
    && (outcome == Parsed ==> Stored(f, d, e))
  }

  /** What comes of any text: it is rejected when it is no message, and otherwise read by its fields. */
  ghost predicate Reads(s: string, d: MessageData, outcome: Outcome, e: MessageData) {
    && (!IsMessage(s) ==> outcome == Rejected && e == d)
    && forall f :: FieldsFit(f) && s == Print(f) ==> Follows(f, d, outcome, e)
  }

  lemma TimesOfFields(f: Fields)
    requires FieldsFit(f)
    ensures TimesRead(f) <==> TimesInRange(f)
    ensures TimesInRange(f) ==> IsTime(f.issuedAt, Parse(f.issuedAt).value)
    ensures TimesInRange(f) && f.expirationAt.Some? ==> IsTime(f.expirationAt.value, Parse(f.expirationAt.value).value)
    ensures TimesInRange(f) && f.notBefore.Some? ==> IsTime(f.notBefore.value, Parse(f.notBefore.value).value)
  {
    ParseExact(f.issuedAt);
    if f.expirationAt.Some? {
      ParseExact(f.expirationAt.value);
    }
    if f.notBefore.Some? {
      ParseExact(f.notBefore.value);
    }
  }

  lemma ReadStores(f: Fields, d: MessageData)
    requires TimesRead(f) && f.statement.Some?
    ensures var e := Read(f, d).1;
            && HeadStored(f, e) && e.issuedAt == Parse(f.issuedAt).value
            && e.expirationAt == (if f.expirationAt.Some? then Parse(f.expirationAt.value).value else d.expirationAt)
            && e.notBefore == (if f.notBefore.Some? then Parse(f.notBefore.value).value else d.notBefore)
            && e.requestId == (if f.requestId.Some? then f.requestId.value else d.requestId)
            && e.resources == Blanks(|Uris(f)|) + Uris(f)
  {
  }

  lemma ReadStops(f: Fields, d: MessageData)
    ensures f.statement.None? ==> Read(f, d).1 == d.(authority := f.authority, address := f.address)
    ensures Read(f, d).0 == BadTime
        ==> HeadStored(f, Read(f, d).1) && Read(f, d).1.requestId == d.requestId
            && Read(f, d).1.resources == d.resources
  {
  }

  lemma ReadFollows(f: Fields, d: MessageData)
    requires FieldsFit(f)
    ensures Follows(f, d, Read(f, d).0, Read(f, d).1)
  {
    TimesOfFields(f);
    ReadStops(f, d);
    if f.statement.Some? {
      ReadOutcome(f, d);
      if TimesRead(f) {
        ReadStores(f, d);
      }
    }
  }

  lemma PrintFollows(r: FieldRules, f: Fields, d: MessageData)
    requires r == LikecoinRules() && FieldsFit(f)
    ensures Follows(f, d, ReadText(Print(f), d).0, ReadText(Print(f), d).1)
  {
    WellFormedExact(f);
    LikecoinRulesFit();
    PrintIsRead(r, f, d);
    ReadFollows(f, d);
  }

  lemma ScannedIsMessage(r: FieldRules, s: string)
    requires r == LikecoinRules() && Scan(r, s).Some?
    ensures IsMessage(s)
  {
    LikecoinRulesFit();
    ScanExact(r, s, Scan(r, s).value);
    WellFormedExact(Scan(r, s).value);
  }

  lemma MessageRead(s: string, d: MessageData)
    ensures Reads(s, d, ReadText(s, d).0, ReadText(s, d).1)
  {
    if Scan(LikecoinRules(), s).Some? {
      ScannedIsMessage(LikecoinRules(), s);
    }
    forall f | FieldsFit(f) && s == Print(f) ensures Follows(f, d, ReadText(s, d).0, ReadText(s, d).1) {
      PrintFollows(LikecoinRules(), f, d);
    }
  }

  /** The grammar derives exactly the messages. */
  lemma AcceptedExact(s: string)
    ensures InLanguage(Eip4361.AuthenticationMessage(), s) <==> IsMessage(s)
  {
    AcceptedIsScanned(s);
    if Scan(LikecoinRules(), s).Some? {
      ScannedIsMessage(LikecoinRules(), s);
    }
    if IsMessage(s) {
      var f :| FieldsFit(f) && s == Print(f);
      PrintFollows(LikecoinRules(), f, EMPTY);
    }
  }

  /** The data after a message has been read, from the keyed parts of its derivation. */
  ghost predicate FromCaptures(c: seq<Capture>, d: MessageData, e: MessageData) {
    && Child(c, AUTHORITY) == Some(e.authority) && Child(c, ADDRESS) == Some(e.address)
    && Child(c, STATEMENT) == Some(e.statement) && Child(c, URI) == Some(e.uri)
    && Child(c, CHAIN_ID) == Some(e.chainId) && Child(c, NONCE) == Some(e.nonce)
    && Child(c, ISSUED_AT).Some? && IsTime(Child(c, ISSUED_AT).value, e.issuedAt)
    && IsOptionalTime(Child(c, EXPIRATION_AT), d.expirationAt, e.expirationAt)
    && IsOptionalTime(Child(c, NOT_BEFORE), d.notBefore, e.notBefore)
    && e.requestId == (match Child(c, REQUEST_ID) case None => d.requestId case Some(id) => id)
    && e.resources == Blanks(|Children(c, RESOURCE)|) + Children(c, RESOURCE)
  }

  lemma StoredFromCaptures(f: Fields, d: MessageData, e: MessageData)
    requires Stored(f, d, e)
    ensures FromCaptures(Captures(f), d, e)
  {
    ChildOfMessage(f);
  }

  lemma CapturedFields(r: FieldRules, s: string, c: seq<Capture>) returns (f: Fields)
    requires r == LikecoinRules() && Means(Message(r), s, c)
    ensures FieldsFit(f) && s == Print(f) && c == Captures(f)
  {
    LikecoinRulesFit();
    f := MessageElim(r, s, c);
    WellFormedExact(f);
  }

  /** Every field of a success is the keyed part of its name. */
  lemma SuccessFromCaptures(s: string, c: seq<Capture>, d: MessageData)
    requires Means(Eip4361.AuthenticationMessage(), s, c) && ReadText(s, d).0 == Parsed
    ensures FromCaptures(c, d, ReadText(s, d).1)
  {
    var f := CapturedFields(LikecoinRules(), s, c);
    PrintFollows(LikecoinRules(), f, d);
    StoredFromCaptures(f, d, ReadText(s, d).1);
  }

  /** A message with every line there is. */
  function FullMessage(authority: string, address: string, statement: string, uri: string, chainId: string,
                       nonce: string, issuedAt: string, expirationAt: string, notBefore: string, requestId: string,
                       resource: string): string {
    Join([authority + (" " + ("wants you to sign in " + "with your LikeCoin " + "account:")), address, "",
          statement, "", "URI: " + uri, "Version: 1", "Chain ID: " + chainId, "Nonce: " + nonce,
          "Issued At: " + issuedAt, "Expiration Time: " + expirationAt, "Not Before: " + notBefore,
          "Request ID: " + requestId, "Resources:", "- " + resource], '\n')
  }

  lemma FullParts(f: Fields, statement: string, expirationAt: string, notBefore: string, requestId: string,
                  resource: string)
    requires f.statement == Some(statement) && f.expirationAt == Some(expirationAt) && f.notBefore == Some(notBefore)
    requires f.requestId == Some(requestId) && f.resources == Some([resource])
    ensures HeadLines(f) == [f.authority + SIGN_IN_SUFFIX, f.address, "", statement, ""]
    ensures TailLines(f) == ["Expiration Time: " + expirationAt, "Not Before: " + notBefore, "Request ID: " + requestId,
                             "Resources:", "- " + resource]
  {
    assert "" + statement == statement;
    assert [resource][1..] == [];
    assert ResourceList([]) == [];
    assert ResourceList([resource]) == ["- " + resource] + ResourceList([resource][1..]);
  }

  lemma FullLines(f: Fields, statement: string, expirationAt: string, notBefore: string, requestId: string,
                  resource: string)
    requires f.statement == Some(statement) && f.expirationAt == Some(expirationAt) && f.notBefore == Some(notBefore)
    requires f.requestId == Some(requestId) && f.resources == Some([resource])
    ensures Print(f) == FullMessage(f.authority, f.address, statement, f.uri, f.chainId, f.nonce, f.issuedAt,
                                    expirationAt, notBefore, requestId, resource)
  {
    FullParts(f, statement, expirationAt, notBefore, requestId, resource);
    assert MessageLines(f)
        == [f.authority + SIGN_IN_SUFFIX, f.address, "", statement, "", "URI: " + f.uri, "Version: 1",
                               "Chain ID: " + f.chainId, "Nonce: " + f.nonce, "Issued At: " + f.issuedAt,
                               "Expiration Time: " + expirationAt, "Not Before: " + notBefore,
                               "Request ID: " + requestId, "Resources:", "- " + resource];
  }

  lemma OneBlank(uri: string)
    ensures Blanks(|[uri]|) + [uri] == ["", uri]
  {
    assert Blanks(0) == [];
  }

  /** The fields of a message with every line, and the data they make. */
  ghost predicate IsFull(f: Fields, e: MessageData) {
    && HeadStored(f, e) && f.requestId == Some(e.requestId) && IsTime(f.issuedAt, e.issuedAt)
    && f.expirationAt.Some? && IsTime(f.expirationAt.value, e.expirationAt)
    && f.notBefore.Some? && IsTime(f.notBefore.value, e.notBefore)
    && e.resources == Blanks(|Uris(f)|) + Uris(f)
  }

  lemma FullIsRead(f: Fields, e: MessageData, d: MessageData)
    requires FieldsFit(f) && IsFull(f, e)
    ensures ReadText(Print(f), d) == (Parsed, e)
  {
    PrintFollows(LikecoinRules(), f, d);
  }

  function FullFields(e: MessageData, issuedAt: string, expirationAt: string, notBefore: string,
                      resource: string): Fields {
    Fields(e.authority, e.address, Some(e.statement), e.uri, e.chainId, e.nonce, issuedAt, Some(expirationAt),
           Some(notBefore), Some(e.requestId), Some([resource]))
  }

  lemma OneResource(uri: string)
    requires IsUri(uri)
    ensures forall u <- [uri] :: IsUri(u)
  {
  }

  lemma FullFieldsFit(f: Fields, e: MessageData, resource: string)
    requires IsAuthority(e.authority) && IsAddress(e.address) && IsStatement(e.statement) && IsUri(e.uri)
    requires IsChainId(e.chainId) && IsNonce(e.nonce) && IsRequestId(e.requestId) && IsUri(resource)
    requires IsFull(f, e) && f.resources == Some([resource])
    ensures FieldsFit(f)
  {
    OneResource(resource);
  }

  lemma FullFieldsAre(e: MessageData, issuedAt: string, expirationAt: string, notBefore: string, resource: string)
    requires IsTime(issuedAt, e.issuedAt) && IsTime(expirationAt, e.expirationAt) && IsTime(notBefore, e.notBefore)
    requires e.resources == ["", resource]
    ensures IsFull(FullFields(e, issuedAt, expirationAt, notBefore, resource), e)
  {
    OneBlank(resource);
  }

  /** The message with every line is read with every field in its place. */
  lemma FullMessageRead(e: MessageData, issuedAt: string, expirationAt: string, notBefore: string, resource: string,
                        d: MessageData)
    requires IsAuthority(e.authority) && IsAddress(e.address) && IsStatement(e.statement) && IsUri(e.uri)
    requires IsChainId(e.chainId) && IsNonce(e.nonce) && IsRequestId(e.requestId) && IsUri(resource)
    requires IsTime(issuedAt, e.issuedAt) && IsTime(expirationAt, e.expirationAt) && IsTime(notBefore, e.notBefore)
    requires e.resources == ["", resource]
    ensures ReadText(FullMessage(e.authority, e.address, e.statement, e.uri, e.chainId, e.nonce, issuedAt, expirationAt,
                                 notBefore, e.requestId, resource), d) == (Parsed, e)
  {
    var f := FullFields(e, issuedAt, expirationAt, notBefore, resource);
    FullFieldsAre(e, issuedAt, expirationAt, notBefore, resource);
    FullFieldsFit(f, e, resource);
    FullLines(f, e.statement, expirationAt, notBefore, e.requestId, resource);
    FullIsRead(f, e, d);
  }

  // ------------------------------------------------- the resources read

  lemma {:induction false} ResourceListLast(uris: seq<string>)
    requires uris != []
    ensures var ls := ResourceList(uris);
            ls != [] && ls[|ls| - 1] == "- " + uris[|uris| - 1]
  {
    if |uris| > 1 {
      ResourceListLast(uris[1..]);
    } else {
      assert ResourceList(uris) == ["- " + uris[0]] + ResourceList(uris[1..]);
    }
  }

  predicate LastIsResource(ls: seq<string>) { ls != [] && "- " <= ls[|ls| - 1] }

  lemma LastBehind(a: seq<string>, b: seq<string>)
    ensures LastIsResource(a + b) <==> if b == [] then LastIsResource(a) else LastIsResource(b)
  {
    assert b == [] ==> a + b == a;
  }

  lemma LastResource(resources: Option<seq<string>>)
    ensures LastIsResource(ResourcesPart(resources)) <==> resources.Some? && resources.value != []
  {
    if resources.Some? {
      LastBehind(["Resources:"], ResourceList(resources.value));
      if resources.value != [] {
        ResourceListLast(resources.value);
      } else {
        assert "Resources:"[0] == 'R' && "- "[0] == '-';
      }
    }
  }

  /** A titled line is no resource line. */
  lemma TitledIsNone(a: seq<string>, title: string, v: Option<string>)
    requires title != "" && title[0] != '-' && !LastIsResource(a)
    ensures !LastIsResource(a + OptionalLine(title, v))
  {
    LastBehind(a, OptionalLine(title, v));
    if v.Some? {
      assert (title + v.value)[0] == title[0] && "- "[0] == '-';
    }
  }

  /** The last line of a message is a resource line exactly when it has resources. */
  lemma LastLine(f: Fields)
    ensures LastIsResource(MessageLines(f)) <==> Uris(f) != []
  {
    var head := HeadLines(f) + BodyLines(f);
    var titled := OptionalLine("Expiration Time: ", f.expirationAt) + OptionalLine("Not Before: ", f.notBefore)
                  + OptionalLine("Request ID: ", f.requestId);
    TitledIsNone([], "Issued At: ", Some(f.issuedAt));
    LastBehind(head, ["Issued At: " + f.issuedAt]);
    TitledIsNone([], "Expiration Time: ", f.expirationAt);
    TitledIsNone(OptionalLine("Expiration Time: ", f.expirationAt), "Not Before: ", f.notBefore);
    TitledIsNone(OptionalLine("Expiration Time: ", f.expirationAt) + OptionalLine("Not Before: ", f.notBefore),
                 "Request ID: ", f.requestId);
    LastBehind(titled, ResourcesPart(f.resources));
    LastResource(f.resources);
    LastBehind(head + ["Issued At: " + f.issuedAt], TailLines(f));
  }

  lemma ReadPads(f: Fields, d: MessageData)
    requires Read(f, d).0 == Parsed
    ensures Read(f, d).1.resources == Blanks(|Uris(f)|) + Uris(f)
    ensures Read(f, d).1.resources == Uris(f) <==> Uris(f) == []
  {
  }

  /** The resource list read from a message has as many blanks in front as the message has resources; it
      is that of the message exactly when the last line is no resource line. */
  lemma ResourcesPadded(s: string, d: MessageData)
    requires ReadText(s, d).0 == Parsed
    ensures Scan(LikecoinRules(), s).Some?
    ensures var uris, list := Uris(Scan(LikecoinRules(), s).value), ReadText(s, d).1.resources;
            list == Blanks(|uris|) + uris && (list == uris <==> !LastIsResource(Split(s, '\n')))
  {
    PaddedBy(LikecoinRules(), s, d);
  }

  lemma PaddedBy(r: FieldRules, s: string, d: MessageData)
    requires ReadBy(r, s, d).0 == Parsed
    ensures Scan(r, s).Some?
    ensures var uris, list := Uris(Scan(r, s).value), ReadBy(r, s, d).1.resources;
            list == Blanks(|uris|) + uris && (list == uris <==> !LastIsResource(Split(s, '\n')))
  {
    var f := Scan(r, s).value;
    ScannedLines(r, s);
    ScanLinesExact(Split(s, '\n'), f);
    LastLine(f);
    ReadPads(f, d);
  }

  // ------------------------------------------------- the client's text

  /** `makeSignInWithCosmosMessage`; `millis` is the moment of the call since 0000-01-01T00:00:00Z. */
  function MakeSignInMessage(host: string, origin: string, address: string, chainId: string, nonce: string,
                             millis: int): string {
    host + (SIGN_IN_SUFFIX + "\n")
    + (address + "\n\n\n\n"
    + ("URI: " + origin + "\n"
    + ("Version: 1\n"
    + ("Chain ID: " + chainId + "\n"
    + ("Nonce: " + nonce + "\n"
    + ("Issued At: " + IsoString(millis)))))))
  }

  function ClientFields(host: string, origin: string, address: string, chainId: string, nonce: string,
                        millis: int): Fields {
    Fields(host, address, Some(""), origin, chainId, nonce, IsoString(millis), None, None, None, None)
  }

  lemma FourLineFeeds(address: string)
    ensures address + "\n" + ("\n" + (Terminated([""]) + "\n")) == address + "\n\n\n\n"
  {
  }

  lemma Titles()
    ensures "URI:" + " " == "URI: " && "Chain ID:" + " " == "Chain ID: " && "Nonce:" + " " == "Nonce: "
    ensures "Issued At:" + " " == "Issued At: "
  {
  }

  lemma ClientMessageIsPrint(host: string, origin: string, address: string, chainId: string, nonce: string, millis: int)
    ensures MakeSignInMessage(host, origin, address, chainId, nonce, millis)
         == Print(ClientFields(host, origin, address, chainId, nonce, millis))
  {
    var f := ClientFields(host, origin, address, chainId, nonce, millis);
    PrintParts(f);
    HeadText(f);
    FourLineFeeds(address);
    assert OptionalLine("", Some("")) == [""] by { assert "" + "" == ""; }
    BodyLinesText(f);
    Titles();
    assert TailLines(f) == [] && BodyText(f) + "" == BodyText(f);
    Assoc(host + (SIGN_IN_SUFFIX + "\n"), address + "\n\n\n\n", BodyText(f));
  }

  lemma ClientLinesFree(f: Fields)
    requires '\n' !in f.authority && '\n' !in f.address && '\n' !in f.uri && '\n' !in f.chainId && '\n' !in f.nonce
    requires '\n' !in f.issuedAt && f == ClientShape(f)
    ensures Free(MessageLines(f), '\n')
  {
    ClientHeadFree(f);
    ClientBodyFree(f);
    MessageLinesParts(f);
    FreeConcat(HeadLines(f), BodyPart(f), '\n');
  }

  lemma ClientHeadFree(f: Fields)
    requires '\n' !in f.authority && '\n' !in f.address && f.statement == Some("")
    ensures Free(HeadLines(f), '\n')
  {
    SuffixFree(f.authority);
    assert "" + "" == "";
    assert HeadLines(f) == [f.authority + SIGN_IN_SUFFIX, f.address, "", "", ""];
  }

  lemma ClientBodyFree(f: Fields)
    requires '\n' !in f.uri && '\n' !in f.chainId && '\n' !in f.nonce && '\n' !in f.issuedAt && f == ClientShape(f)
    ensures Free(BodyPart(f), '\n')
  {
    assert TailLines(f) == [];
    assert BodyPart(f) == BodyLines(f) + ["Issued At: " + f.issuedAt];
  }

  /** The fields with an empty statement line and none of the optional lines after the date. */
  function ClientShape(f: Fields): Fields {
    Fields(f.authority, f.address, Some(""), f.uri, f.chainId, f.nonce, f.issuedAt, None, None, None, None)
  }

  lemma IsoStringFree(millis: int)
    ensures '\n' !in IsoString(millis)
  {
    LineFeedFree(AFTER_YEAR, AfterYear(millis / 1000));
    NotInThree(".", Pad(millis % 1000, 3), "Z", '\n');
    NotInThree(IsoYearText(YearOfSeconds(millis / 1000)), PrintLayout(AFTER_YEAR, AfterYear(millis / 1000)),
               "." + Pad(millis % 1000, 3) + "Z", '\n');
  }

  lemma NotInThree(a: string, b: string, c: string, ch: char)
    requires ch !in a && ch !in b && ch !in c
    ensures ch !in a + b + c && ch !in a + (b + c)
  {
  }

  lemma {:induction false} LineFeedFree(layout: seq<Piece>, values: seq<nat>)
    requires forall p <- layout :: p.Lit? ==> p.c != '\n'
    ensures '\n' !in PrintLayout(layout, values)
  {
    if layout != [] {
      if layout[0].Lit? {
        LineFeedFree(layout[1..], values);
      } else if values != [] {
        LineFeedFree(layout[1..], values[1..]);
      }
    }
  }

  /** Whether every part the client puts in is a text of its kind, character by character, and the moment in
      a year of four digits. */
  ghost predicate PartsFit(host: string, origin: string, address: string, chainId: string, nonce: string, millis: int) {
    && IsAuthority(host) && IsUri(origin) && IsAddress(address) && IsChainId(chainId) && IsNonce(nonce)
    && IsFourDigitSecond(millis / 1000)
  }

  lemma PartsFitWellFormed(host: string, origin: string, address: string, chainId: string, nonce: string, millis: int)
    ensures WellFormed(LikecoinRules(), ClientFields(host, origin, address, chainId, nonce, millis))
       <==> PartsFit(host, origin, address, chainId, nonce, millis)
  {
    WellFormedExact(ClientFields(host, origin, address, chainId, nonce, millis));
    IsoStringIsDateTime(millis);
    DateTimeExact(IsoString(millis));
    FourDigitYears(millis / 1000);
  }

  /** The scanner finds the client's own fields in its message, or nothing. */
  lemma ClientMessageScans(host: string, origin: string, address: string, chainId: string, nonce: string, millis: int)
    requires '\n' !in host && '\n' !in origin && '\n' !in address && '\n' !in chainId && '\n' !in nonce
    ensures Scan(LikecoinRules(), MakeSignInMessage(host, origin, address, chainId, nonce, millis))
         == if PartsFit(host, origin, address, chainId, nonce, millis)
            then Some(ClientFields(host, origin, address, chainId, nonce, millis)) else None
  {
    ClientMessageIsPrint(host, origin, address, chainId, nonce, millis);
    IsoStringFree(millis);
    ClientLinesFree(ClientFields(host, origin, address, chainId, nonce, millis));
    LikecoinRulesFit();
    ScanOfPrint(LikecoinRules(), ClientFields(host, origin, address, chainId, nonce, millis));
    PartsFitWellFormed(host, origin, address, chainId, nonce, millis);
  }

  lemma ReadClientFields(f: Fields, t: Timestamp, d: MessageData)
    requires f == ClientShape(f) && Parse(f.issuedAt) == Some(t)
    ensures Read(f, d) == (Parsed, d.(authority := f.authority, address := f.address, statement := "", uri := f.uri,
                                      chainId := f.chainId, nonce := f.nonce, issuedAt := t, resources := []))
  {
    assert Blanks(0) + Uris(f) == [];
  }

  /** The server takes the client's message exactly when each part fits its rule, and then reads
      back each part, the moment to the millisecond; otherwise it rejects and keeps its data. */
  lemma ClientMessageRead(host: string, origin: string, address: string, chainId: string, nonce: string, millis: int,
                          d: MessageData)
    requires '\n' !in host && '\n' !in origin && '\n' !in address && '\n' !in chainId && '\n' !in nonce
    ensures ReadText(MakeSignInMessage(host, origin, address, chainId, nonce, millis), d)
         == if PartsFit(host, origin, address, chainId, nonce, millis)
            then (Parsed, d.(authority := host, address := address, statement := "", uri := origin, chainId := chainId,
                             nonce := nonce, issuedAt := Timestamp(millis * 1_000_000, 0), resources := []))
            else (Rejected, d)
  {
    ClientMessageScans(host, origin, address, chainId, nonce, millis);
    if PartsFit(host, origin, address, chainId, nonce, millis) {
      FourDigitYears(millis / 1000);
      IsoStringParses(millis);
      ReadClientFields(ClientFields(host, origin, address, chainId, nonce, millis), Timestamp(millis * 1_000_000, 0),
                       d);
    }
  }

  lemma HexNonceFits(bytes: seq<Byte>)
    requires |bytes| == 4
    ensures IsNonce(HexEncode(bytes))
  {
    HexEncodeChars(bytes);
    HexNonce(HexEncode(bytes));
  }

  lemma HexNonce(s: string)
    requires |s| == 8 && forall ch <- s :: IsDigit(ch) || 'a' <= ch <= 'f'
    ensures IsNonce(s)
  {
    forall ch | ch in s ensures ch in ALPHANUMERIC {
      DigitListed(ch);
      SmallListed(ch);
    }
  }

  lemma OriginIsUriText(scheme: string, host: string)
    requires IsScheme(scheme) && IsAuthority(host)
    ensures IsUri(scheme + "://" + host)
  {
    SchemeExact(scheme);
    AuthorityExact(host);
    OriginIsUri(scheme, host);
    UriChars(scheme + "://" + host);
  }

  lemma PartsOnOneLine(host: string, origin: string, address: string, chainId: string, nonce: string, millis: int)
    requires PartsFit(host, origin, address, chainId, nonce, millis)
    ensures '\n' !in host && '\n' !in origin && '\n' !in address && '\n' !in chainId && '\n' !in nonce
  {
    var rules := LikecoinRules();
    PartsFitWellFormed(host, origin, address, chainId, nonce, millis);
    LikecoinRulesFit();
    AvoidsLanguage(rules.authority, '\n', host);
    AvoidsLanguage(rules.uri, '\n', origin);
    AvoidsLanguage(rules.address, '\n', address);
    AvoidsLanguage(rules.chainId, '\n', chainId);
    AvoidsLanguage(rules.nonce, '\n', nonce);
  }

  /** The round trip of a sign-in: a scheme and a host of the browser's page, the account's address, a chain
      id of letters, digits and dashes, the server's nonce of four random bytes and a moment in years 0 to 9999. */
  lemma SignInRoundTrip(scheme: string, host: string, address: string, chainId: string, bytes: seq<Byte>, millis: int)
    requires IsScheme(scheme) && IsAuthority(host) && IsAddress(address)
    requires chainId != "" && forall c <- chainId :: c in LETTERS || c in DIGITS || c == '-'
    requires |bytes| == 4 && IsFourDigitSecond(millis / 1000)
    ensures ReadText(MakeSignInMessage(host, scheme + "://" + host, address, chainId, HexEncode(bytes), millis), EMPTY)
         == (Parsed, MessageData(host, address, "", scheme + "://" + host, chainId, HexEncode(bytes),
                                 Timestamp(millis * 1_000_000, 0), ZERO_TIME, ZERO_TIME, "", []))
  {
    OriginIsUriText(scheme, host);
    HexNonceFits(bytes);
    PartsOnOneLine(host, scheme + "://" + host, address, chainId, HexEncode(bytes), millis);
    ClientMessageRead(host, scheme + "://" + host, address, chainId, HexEncode(bytes), millis, EMPTY);
  }

  /** Small letters, digits and one more character. */
  predicate IsSimple(s: string, mark: char) { forall c <- s :: 'a' <= c <= 'z' || IsDigit(c) || c == mark }

  lemma SimpleChar(c: char)
    requires 'a' <= c <= 'z' || IsDigit(c)
    ensures c in ALPHANUMERIC && ('a' <= c <= 'z' ==> c in LETTERS)
  {
    DigitListed(c);
    SmallListed(c);
  }

  lemma SimpleChainId(s: string)
    requires s != "" && IsSimple(s, '-')
    ensures IsChainId(s)
  {
    forall c | c in s ensures c in ALPHANUMERIC || c == '-' {
      if c != '-' {
        SimpleChar(c);
      }
    }
  }

  lemma SimpleHost(s: string)
    requires IsSimple(s, '.')
    ensures IsAuthority(s)
  {
    forall i | 0 <= i < |s| ensures IsEncodedAt(s, i, HOST_CHARS, HEX_DIGITS) {
      if s[i] != '.' {
        SimpleChar(s[i]);
      }
    }
    assert s == "" + (s + "");
    assert IsAuthorityText(s, "", s, "");
  }

  lemma SimpleScheme(s: string)
    requires s != "" && forall c <- s :: 'a' <= c <= 'z'
    ensures IsScheme(s)
  {
    forall c | c in s ensures c in LETTERS && c in ALPHANUMERIC {
      SimpleChar(c);
    }
  }

  lemma SimpleAddress(prefix: string, rest: string)
    requires prefix != "" && rest != "" && (forall c <- prefix :: 'a' <= c <= 'z') && IsSimple(rest, '0')
    ensures IsAddress(prefix + ("1" + rest))
  {
    var s := prefix + ("1" + rest);
    assert s[..|prefix|] == prefix && s[|prefix| + 1..] == rest;
    forall c | c in prefix ensures c in LETTERS {
      SimpleChar(c);
    }
    forall c | c in rest ensures c in ALPHANUMERIC {
      SimpleChar(c);
    }
    assert IsAddressAt(s, |prefix|);
  }

  lemma SomeChainId(s: string)
    requires s == "likecoin-mainnet-2"
    ensures IsChainId(s)
  {
    SimpleChainId(s);
  }

  lemma SomeOrigin(host: string, scheme: string)
    requires host == "app.like.co" && scheme == "https"
    ensures IsAuthority(host) && IsUri(scheme + "://" + host)
  {
    SimpleHost(host);
    SimpleScheme(scheme);
    OriginIsUriText(scheme, host);
  }

  lemma SomeAddress(prefix: string, rest: string)
    requires prefix == "like" && rest == "qqq"
    ensures IsAddress(prefix + ("1" + rest))
  {
    SimpleAddress(prefix, rest);
  }

  lemma SomeNonce(s: string)
    requires s == "0123cdef"
    ensures IsNonce(s)
  {
    HexNonce(s);
  }

  /** The parts of a sign-in at the chain the client is configured for. */
  lemma SomePartsFit(scheme: string, host: string, prefix: string, rest: string, chainId: string, nonce: string)
    requires scheme == "https" && host == "app.like.co" && prefix == "like" && rest == "qqq"
    requires chainId == "likecoin-mainnet-2" && nonce == "0123cdef"
    ensures PartsFit(host, scheme + "://" + host, prefix + ("1" + rest), chainId, nonce, 0)
  {
    SomeOrigin(host, scheme);
    SomeAddress(prefix, rest);
    SomeChainId(chainId);
    SomeNonce(nonce);
  }

  // ------------------------------------------------- accepted messages that are not read as sent

  /** The client's fields, but for their statement and their resources, are well formed with any others. */
  lemma VariantWellFormed(r: FieldRules, f: Fields, uris: seq<string>)
    requires WellFormed(r, f) && forall u <- uris :: InLanguage(r.uri, u)
    ensures WellFormed(r, f.(statement := None)) && WellFormed(r, f.(resources := Some(uris)))
  {
  }

  /** The client's message without its empty statement line is accepted, and makes the server panic. */
  lemma WithoutStatementPanics(host: string, origin: string, address: string, chainId: string, nonce: string,
                               millis: int, d: MessageData)
    requires PartsFit(host, origin, address, chainId, nonce, millis)
    ensures var s := Print(ClientFields(host, origin, address, chainId, nonce, millis).(statement := None));
            InLanguage(Eip4361.AuthenticationMessage(), s)
                && ReadText(s, d) == (Panicked, d.(authority := host, address := address))
  {
    var f := ClientFields(host, origin, address, chainId, nonce, millis);
    PartsFitWellFormed(host, origin, address, chainId, nonce, millis);
    VariantWellFormed(LikecoinRules(), f, []);
    LikecoinRulesFit();
    PrintIsRead(LikecoinRules(), f.(statement := None), d);
    AcceptedIsScanned(Print(f.(statement := None)));
  }

  lemma ReadWithResources(f: Fields, uris: seq<string>, t: Timestamp, d: MessageData)
    requires f == ClientShape(f) && Parse(f.issuedAt) == Some(t)
    ensures var g := f.(resources := Some(uris));
            Read(g, d).0 == Parsed && Read(g, d).1.resources == Blanks(|uris|) + uris
  {
  }

  lemma VariantIsRead(r: FieldRules, f: Fields, g: Fields, uris: seq<string>, t: Timestamp, d: MessageData)
    requires r == LikecoinRules() && WellFormed(r, f) && f == ClientShape(f) && Parse(f.issuedAt) == Some(t)
    requires g == f.(resources := Some(uris)) && forall u <- uris :: InLanguage(r.uri, u)
    ensures InLanguage(Eip4361.AuthenticationMessage(), Print(g))
    ensures ReadText(Print(g), d).0 == Parsed && ReadText(Print(g), d).1.resources == Blanks(|uris|) + uris
  {
    VariantWellFormed(r, f, uris);
    LikecoinRulesFit();
    PrintIsRead(r, g, d);
    AcceptedIsScanned(Print(g));
    ReadWithResources(f, uris, t, d);
  }

  /** The client's message with any resources is read with as many blanks in front of them. */
  lemma WithResources(host: string, origin: string, address: string, chainId: string, nonce: string, millis: int,
                      uris: seq<string>, d: MessageData)
    requires PartsFit(host, origin, address, chainId, nonce, millis) && forall u <- uris :: IsUri(u)
    ensures var s := Print(ClientFields(host, origin, address, chainId, nonce, millis).(resources := Some(uris)));
            && InLanguage(Eip4361.AuthenticationMessage(), s)
            && ReadText(s, d).0 == Parsed && ReadText(s, d).1.resources == Blanks(|uris|) + uris
  {
    var f := ClientFields(host, origin, address, chainId, nonce, millis);
    PartsFitWellFormed(host, origin, address, chainId, nonce, millis);
    ResourcesAre(uris);
    FourDigitYears(millis / 1000);
    IsoStringParses(millis);
    VariantIsRead(LikecoinRules(), f, f.(resources := Some(uris)), uris, Timestamp(millis * 1_000_000, 0), d);
  }
}
