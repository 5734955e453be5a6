/** The URIs of the grammar, taken apart, and where they are not those of RFC 3986. */
module UriForms {
  import opened Wrappers
  import opened Strings
  import opened Abnf
  import opened Rfc3986
  import opened Languages

  // ------------------------------------------------- texts of two rules

  lemma CatIn(a: Rule, b: Rule, s1: string, s2: string)
    requires InLanguage(a, s1) && InLanguage(b, s2)
    ensures InLanguage(Cat(a, b), s1 + s2)
  {
    var c1 :| Means(a, s1, c1);
    var c2 :| Means(b, s2, c2);
    CatIntro(a, b, s1, c1, s2, c2);
  }

  lemma CatOut(a: Rule, b: Rule, s: string) returns (s1: string, s2: string)
    requires InLanguage(Cat(a, b), s)
    ensures s == s1 + s2 && InLanguage(a, s1) && InLanguage(b, s2)
  {
    var c :| Means(Cat(a, b), s, c);
    var c1, c2;
    s1, c1, s2, c2 := CatElim(a, b, s, c);
  }

  lemma {:induction false} LiteralIn(r: Rule, s: string)
    requires LiteralOf(r).Some?
    ensures InLanguage(r, s) <==> s == LiteralOf(r).value
  {
    LiteralMeans(r, LiteralOf(r).value, []);
    if InLanguage(r, s) {
      var c :| Means(r, s, c);
      LiteralMeans(r, s, c);
    }
  }

  lemma OptionalOut(r: Rule, s: string)
    requires InLanguage(Optional(r), s)
    ensures s == "" || InLanguage(r, s)
  {
    var c :| Means(Optional(r), s, c);
    OptionalMeans(r, s, c);
  }

  lemma Avoided(r: Rule, ch: char, s: string)
    requires Avoids(r, ch) && InLanguage(r, s)
    ensures ch !in s
  {
    var c :| Means(r, s, c);
    AvoidsSound(r, ch, s, c);
  }

  lemma NotEmpty(r: Rule, s: string)
    requires !Nullable(r) && InLanguage(r, s)
    ensures s != ""
  {
    var c :| Means(r, s, c);
    NonNullable(r, s, c);
  }

  // ------------------------------------------------- the delimiters

  predicate IsDelim(c: char) {
    || c == '!' || c == '$' || c == '&' || c == '\\' || c == '(' || c == ')'
    || c == '*' || c == '+' || c == ',' || c == ';' || c == '='
  }

  lemma {:induction false} ClassLanguage(r: Rule, s: string)
    requires IsClass(r)
    ensures InLanguage(r, s) <==> |s| == 1 && Admits(r, s[0])
  {
    ClassMeans(r, s, []);
    if InLanguage(r, s) {
      var c :| Means(r, s, c);
      ClassMeans(r, s, c);
    }
  }

  lemma DelimsAdmit(c: char)
    ensures IsClass(SubDelims()) && (Admits(SubDelims(), c) <==> IsDelim(c))
  {
    var last := Alt(Char(','), Alt(Char(';'), Char('=')));
    var middle := Alt(Char('('), Alt(Char(')'), Alt(Char('*'), Alt(Char('+'), last))));
    CharOr(';', Char('='), c);
    CharOr(',', Alt(Char(';'), Char('=')), c);
    CharOr('+', last, c);
    CharOr('*', Alt(Char('+'), last), c);
    CharOr(')', Alt(Char('*'), Alt(Char('+'), last)), c);
    CharOr('(', Alt(Char(')'), Alt(Char('*'), Alt(Char('+'), last))), c);
    CharOr('\\', middle, c);
    CharOr('&', Alt(Char('\\'), middle), c);
    CharOr('$', Alt(Char('&'), Alt(Char('\\'), middle)), c);
    CharOr('!', Alt(Char('$'), Alt(Char('&'), Alt(Char('\\'), middle))), c);
    assert Admits(Char('='), c) <==> c == '=';
  }

  lemma CharOr(ch: char, rest: Rule, c: char)
    requires IsClass(rest)
    ensures IsClass(Alt(Char(ch), rest)) && (Admits(Alt(Char(ch), rest), c) <==> c == ch || Admits(rest, c))
  {
  }

  /** The delimiters of the rule: a backslash where section 2.2 of RFC 3986 has an apostrophe. */
  lemma DelimsExact(s: string)
    ensures InLanguage(SubDelims(), s) <==> |s| == 1 && IsDelim(s[0])
  {
    if s != "" {
      DelimsAdmit(s[0]);
    } else {
      DelimsAdmit('!');
    }
    ClassLanguage(SubDelims(), s);
  }

  /** An apostrophe is in no URI. */
  lemma NoApostrophe(s: string)
    requires InLanguage(Uri(), s)
    ensures '\'' !in s
  {
    var c :| Means(Uri(), s, c);
    PlainUri();
    AvoidsSound(Uri(), '\'', s, c);
  }

  lemma BackslashIsDelim()
    ensures Means(SubDelims(), "\\", [])
  {
    DelimsAdmit('\\');
    ClassMeans(SubDelims(), "\\", []);
  }

  lemma SchemeText()
    ensures "a" + "://" + "\\" == "a://\\"
  {
  }

  /** A backslash, which it does not allow, is in some. */
  lemma BackslashInUri()
    ensures InLanguage(Uri(), "a://\\")
  {
    BackslashIsDelim();
    OneCharHost("\\");
    ClassMeans(Alpha(), "a", []);
    OneCharScheme("a");
    OriginIsUri("a", "\\");
    SchemeText();
  }

  lemma OneCharHost(s: string)
    requires |s| == 1 && Means(SubDelims(), s, [])
    ensures InLanguage(Authority(), s)
  {
    EitherMeans(PctEncoded(), SubDelims(), s, []);
    EitherMeans(Unreserved(), Alt(PctEncoded(), SubDelims()), s, []);
    assert [s[0]] == s;
    StarOfChars(Alt(Unreserved(), Alt(PctEncoded(), SubDelims())), s);
    assert InBounds(1, 0, None);
    HostIsAuthority(s);
  }

  lemma HostIsAuthority(host: string)
    requires Means(RegName(), host, [])
    ensures InLanguage(Authority(), host)
  {
    assert Means(Host(), host, []);
    OptionalMeans(Cat(UserInfo(), Char('@')), "", []);
    OptionalMeans(Cat(Char(':'), Port()), "", []);
    AppendEmpty(Host(), Optional(Cat(Char(':'), Port())), host, []);
    CatIntro(Optional(Cat(UserInfo(), Char('@'))), Cat(Host(), Optional(Cat(Char(':'), Port()))), "", [], host, []);
    assert "" + host == host && NO_CAPTURES + NO_CAPTURES == [];
  }

  lemma OneCharScheme(s: string)
    requires Means(Alpha(), s, [])
    ensures InLanguage(Scheme(), s)
  {
    var rest := Alt(AlphaNum(), Alt(Char('+'), Alt(Char('-'), Char('.'))));
    assert Times(rest, 0, "", []) && InBounds(0, 0, None);
    AppendEmpty(Alpha(), Star(rest), s, []);
  }

  // ------------------------------------------------- the parts of a URI

  ghost predicate IsUriOf(s: string, scheme: string, authority: string, path: string, end: string) {
    && InLanguage(Scheme(), scheme) && InLanguage(Authority(), authority)
    && InLanguage(Paths(), path) && InLanguage(UriEnd(), end)
    && s == scheme + ("://" + (authority + (path + end)))
  }

  /** The texts of the rule are exactly those made of a scheme, "://", an authority, a path and an end: the
      other forms of the hierarchical part, without an authority, are missing. */
  lemma UriExact(s: string)
    ensures InLanguage(Uri(), s) <==> exists scheme, authority, path, end :: IsUriOf(s, scheme, authority, path, end)
  {
    if InLanguage(Uri(), s) {
      var scheme, authority, path, end := PartsOut(Scheme(), Authority(), Paths(), UriEnd(), s);
      assert IsUriOf(s, scheme, authority, path, end);
    }
    if scheme, authority, path, end :| IsUriOf(s, scheme, authority, path, end) {
      PartsIn(Scheme(), Authority(), Paths(), UriEnd(), scheme, authority, path, end);
    }
  }

  function Form(s: Rule, a: Rule, p: Rule, e: Rule): Rule {
    Cat(s, Cat(Char(':'), Cat(Cat(Text("//"), Cat(a, p)), e)))
  }

  lemma PartsOut(s: Rule, a: Rule, p: Rule, e: Rule, text: string)
    returns (scheme: string, authority: string, path: string, end: string)
    requires InLanguage(Form(s, a, p, e), text)
    ensures InLanguage(s, scheme) && InLanguage(a, authority) && InLanguage(p, path) && InLanguage(e, end)
    ensures text == scheme + ("://" + (authority + (path + end)))
  {
    var s1, s2, s3, s4, s5;
    scheme, s1 := CatOut(s, Cat(Char(':'), Cat(Cat(Text("//"), Cat(a, p)), e)), text);
    s2, s3 := CatOut(Char(':'), Cat(Cat(Text("//"), Cat(a, p)), e), s1);
    LiteralIn(Char(':'), s2);
    s4, end := CatOut(Cat(Text("//"), Cat(a, p)), e, s3);
    s2, s5 := CatOut(Text("//"), Cat(a, p), s4);
    LiteralIn(Text("//"), s2);
    authority, path := CatOut(a, p, s5);
    PartsText(authority, path, end);
  }

  lemma PartsText(authority: string, path: string, end: string)
    ensures ":" + (("//" + (authority + path)) + end) == "://" + (authority + (path + end))
  {
  }

  lemma PartsIn(s: Rule, a: Rule, p: Rule, e: Rule, scheme: string, authority: string, path: string, end: string)
    requires InLanguage(s, scheme) && InLanguage(a, authority) && InLanguage(p, path) && InLanguage(e, end)
    ensures InLanguage(Form(s, a, p, e), scheme + ("://" + (authority + (path + end))))
  {
    LiteralIn(Char(':'), ":");
    LiteralIn(Text("//"), "//");
    CatIn(a, p, authority, path);
    CatIn(Text("//"), Cat(a, p), "//", authority + path);
    CatIn(Cat(Text("//"), Cat(a, p)), e, "//" + (authority + path), end);
    CatIn(Char(':'), Cat(Cat(Text("//"), Cat(a, p)), e), ":", ("//" + (authority + path)) + end);
    CatIn(s, Cat(Char(':'), Cat(Cat(Text("//"), Cat(a, p)), e)), scheme, ":" + (("//" + (authority + path)) + end));
    PartsText(authority, path, end);
  }

  // ------------------------------------------------- the path behind the authority

  /** Section 3.3 of RFC 3986: a path behind an authority is empty or begins with a slash. */
  predicate MayFollowAuthority(path: string) { path == "" || path[0] == '/' }

  lemma AbEmptyBegins(segment: Rule, s: string)
    requires InLanguage(Star(Cat(Char('/'), segment)), s)
    ensures MayFollowAuthority(s)
  {
    var c :| Means(Star(Cat(Char('/'), segment)), s, c);
    var n: nat :| InBounds(n, 0, None) && Times(Cat(Char('/'), segment), n, s, c);
    if n > 0 {
      var s1, c1, s2, c2 := TimesElim(Cat(Char('/'), segment), n, s, c);
      var rest := LiteralFirst(Char('/'), segment, s1, c1);
    }
  }

  lemma StarMore(r: Rule, first: string, rest: string)
    requires InLanguage(r, first) && InLanguage(Star(r), rest)
    ensures InLanguage(Star(r), first + rest)
  {
    var c :| Means(r, first, c);
    var d :| Means(Star(r), rest, d);
    var n: nat :| InBounds(n, 0, None) && Times(r, n, rest, d);
    TimesStep(r, n, first, c, rest, d);
    assert InBounds(n + 1, 0, None) && Means(Star(r), first + rest, c + d);
  }

  lemma StarNone(r: Rule)
    ensures InLanguage(Star(r), "")
  {
    assert Times(r, 0, "", []) && InBounds(0, 0, None);
    assert Means(Star(r), "", []);
  }

  lemma PlusIsStar(r: Rule, s: string)
    requires InLanguage(Plus(r), s)
    ensures InLanguage(Star(r), s)
  {
    var c :| Means(Plus(r), s, c);
    var n: nat :| InBounds(n, 1, None) && Times(r, n, s, c);
    assert InBounds(n, 0, None) && Means(Star(r), s, c);
  }

  /** What the second alternative derives, the first derives as well. */
  lemma AbsoluteIsAbEmpty(p: Rule, s: string)
    requires InLanguage(Cat(Char('/'), Optional(Cat(Plus(p), Star(Cat(Char('/'), Star(p)))))), s)
    ensures InLanguage(Star(Cat(Char('/'), Star(p))), s)
  {
    var segments := Star(Cat(Char('/'), Star(p)));
    var slash, more := CatOut(Char('/'), Optional(Cat(Plus(p), segments)), s);
    LiteralIn(Char('/'), slash);
    OptionalOut(Cat(Plus(p), segments), more);
    StarNone(p);
    StarNone(Cat(Char('/'), Star(p)));
    var first, rest := "", "";
    if more != "" {
      first, rest := CatOut(Plus(p), segments, more);
      PlusIsStar(p, first);
    }
    CatIn(Char('/'), Star(p), "/", first);
    StarMore(Cat(Char('/'), Star(p)), "/" + first, rest);
    assert s == ("/" + first) + rest;
  }

  lemma RootlessBegins(p: Rule, rest: Rule, s: string)
    requires !Nullable(p) && Avoids(p, '/') && InLanguage(Cat(Plus(p), rest), s)
    ensures !MayFollowAuthority(s)
  {
    var first, more := CatOut(Plus(p), rest, s);
    NotEmpty(Plus(p), first);
    Avoided(Plus(p), '/', first);
    assert first[0] in first;
  }

  lemma PcharAvoidsSlash()
    ensures !Nullable(Pchar()) && Avoids(Pchar(), '/')
  {
    PlainPchar();
  }

  lemma NoChars(r: Rule, s: string)
    requires InLanguage(Exactly(0, r), s)
    ensures s == ""
  {
    var c :| Means(Exactly(0, r), s, c);
    var n: nat :| InBounds(n, 0, Some(0)) && Times(r, n, s, c);
  }

  /** Of the paths the rule accepts, those that may follow an authority are exactly those of the first
      alternative; the others begin with a path character. */
  lemma PathsExact(path: string)
    requires InLanguage(Paths(), path)
    ensures InLanguage(PathAbEmpty(), path) <==> MayFollowAuthority(path)
    ensures InLanguage(PathRootless(), path) <==> !MayFollowAuthority(path)
  {
    AltLanguage(PathAbEmpty(), Alt(PathAbsolute(), Alt(PathRootless(), PathEmpty())), path);
    AltLanguage(PathAbsolute(), Alt(PathRootless(), PathEmpty()), path);
    AltLanguage(PathRootless(), PathEmpty(), path);
    if InLanguage(PathAbEmpty(), path) {
      AbEmptyBegins(Segment(), path);
    } else if InLanguage(PathAbsolute(), path) {
      AbsoluteIsAbEmpty(Pchar(), path);
      AbEmptyBegins(Segment(), path);
    } else if InLanguage(PathEmpty(), path) {
      NoChars(Pchar(), path);
      StarNone(Cat(Char('/'), Segment()));
    }
    if InLanguage(PathRootless(), path) {
      PcharAvoidsSlash();
      RootlessBegins(Pchar(), SlashSegments(), path);
    }
  }

  // ------------------------------------------------- a URI that RFC 3986 refuses

  lemma PcharMeans(ch: char)
    requires ch == ':' || IsDigit(ch) || 'a' <= ch <= 'z'
    ensures Means(Pchar(), [ch], [])
  {
    var colon := Alt(Char(':'), Char('@'));
    if ch == ':' {
      ClassMeans(colon, [ch], []);
      EitherMeans(SubDelims(), colon, [ch], []);
      EitherMeans(PctEncoded(), Alt(SubDelims(), colon), [ch], []);
    } else {
      ClassMeans(Unreserved(), [ch], []);
    }
    EitherMeans(Unreserved(), Alt(PctEncoded(), Alt(SubDelims(), colon)), [ch], []);
  }

  lemma PlusOfChars(r: Rule, s: string)
    requires s != "" && forall ch <- s :: Means(r, [ch], [])
    ensures InLanguage(Plus(r), s)
  {
    StarOfChars(r, s);
    assert InBounds(|s|, 1, None) && Means(Plus(r), s, []);
  }

  lemma SegmentsIn(p: Rule, s: string)
    requires InLanguage(Plus(p), s)
    ensures InLanguage(Cat(Plus(p), Star(Cat(Char('/'), Star(p)))), s)
  {
    StarNone(Cat(Char('/'), Star(p)));
    CatIn(Plus(p), Star(Cat(Char('/'), Star(p))), s, "");
    assert s + "" == s;
  }

  lemma ThirdOf(a: Rule, b: Rule, r: Rule, e: Rule, s: string)
    requires InLanguage(r, s)
    ensures InLanguage(Alt(a, Alt(b, Alt(r, e))), s)
  {
    AltLanguage(r, e, s);
    AltLanguage(b, Alt(r, e), s);
    AltLanguage(a, Alt(b, Alt(r, e)), s);
  }

  lemma ColonPath()
    ensures InLanguage(Paths(), ":a")
  {
    PcharMeans(':');
    PcharMeans('a');
    PlusOfChars(Pchar(), ":a");
    SegmentsIn(Pchar(), ":a");
    ThirdOf(PathAbEmpty(), PathAbsolute(), PathRootless(), PathEmpty(), ":a");
  }

  lemma AnnouncedOut(ch: char, r: Rule, s: string)
    requires InLanguage(Optional(Cat(Char(ch), r)), s)
    ensures s == "" || (s[0] == ch && InLanguage(r, s[1..]))
  {
    OptionalOut(Cat(Char(ch), r), s);
    if s != "" {
      var first, rest := CatOut(Char(ch), r, s);
      LiteralIn(Char(ch), first);
      assert s[1..] == rest;
    }
  }

  lemma AuthorityOut(s: string) returns (user: string, host: string, port: string)
    requires InLanguage(Authority(), s)
    ensures s == user + (host + port) && (user == "" || '@' in user) && ':' !in host
    ensures port == "" || (port[0] == ':' && AllDigits(port[1..]))
  {
    var rest;
    user, rest := CatOut(Optional(Cat(UserInfo(), Char('@'))), Cat(Host(), Optional(Cat(Char(':'), Port()))), s);
    UserOut(UserInfo(), user);
    host, port := CatOut(Host(), Optional(Cat(Char(':'), Port())), rest);
    HostIsRegName(host);
    HostAvoidsColon();
    Avoided(RegName(), ':', host);
    AnnouncedOut(':', Port(), port);
    if port != "" {
      PortOut(port[1..]);
    }
  }

  lemma UserOut(r: Rule, s: string)
    requires InLanguage(Optional(Cat(r, Char('@'))), s)
    ensures s == "" || '@' in s
  {
    OptionalOut(Cat(r, Char('@')), s);
    if s != "" {
      var name, sign := CatOut(r, Char('@'), s);
      LiteralIn(Char('@'), sign);
      assert s[|name|] == '@';
    }
  }

  lemma HostAvoidsColon()
    ensures Avoids(RegName(), ':')
  {
  }

  lemma PortOut(s: string)
    requires InLanguage(Port(), s)
    ensures AllDigits(s)
  {
    var c :| Means(Port(), s, c);
    KeylessSound(Port(), s, c);
    ClassRepeat(Digit(), 0, None, s);
  }

  lemma InsideWhole(a: string, b: string, c: string, ch: char)
    requires ch in b
    ensures ch in a + (b + c)
  {
    var i :| 0 <= i < |b| && b[i] == ch;
    assert (a + (b + c))[|a| + i] == ch;
  }

  /** The text `1:a` is no host with a port, with or without a user in front. */
  lemma NotCut(user: string, host: string, port: string)
    requires "1:a" == user + (host + port) && ':' !in host
    ensures !((user == "" || '@' in user) && (port == "" || (port[0] == ':' && AllDigits(port[1..]))))
  {
    if '@' in user {
      InsideWhole("", user, host + port, '@');
      assert false;
    } else if user == "" {
      assert "1:a" == host + port;
      HostThenPort(host, port);
    }
  }

  lemma InFront(a: string, b: string, i: nat)
    requires i < |a|
    ensures (a + b)[i] in a
  {
  }

  lemma HostThenPort(host: string, port: string)
    requires "1:a" == host + port && ':' !in host
    ensures port != "" && (port[0] == ':' ==> !AllDigits(port[1..]))
  {
    if |host| > 1 {
      InFront(host, port, 1);
      assert false;
    }
    var digits := port[1..];
    assert digits[|digits| - 1] == (host + port)[2] && digits[|digits| - 1] in digits;
  }

  lemma NoSuchAuthority()
    ensures !InLanguage(Authority(), "1:a")
  {
    if InLanguage(Authority(), "1:a") {
      var user, host, port := AuthorityOut("1:a");
      NotCut(user, host, port);
    }
  }

  lemma EndOut(s: string)
    requires InLanguage(UriEnd(), s)
    ensures s == "" || '?' in s || '#' in s
  {
    var query, fragment := CatOut(Optional(Cat(Char('?'), Query())), Optional(Cat(Char('#'), Fragment())), s);
    AnnouncedOut('?', Query(), query);
    AnnouncedOut('#', Fragment(), fragment);
    if query != "" {
      assert s[0] == '?';
    } else if fragment != "" {
      assert s[0] == '#';
    }
  }

  lemma OneScheme(scheme: string, rest: string)
    requires "a://1:a" == scheme + ("://" + rest)
    ensures rest == "1:a"
  {
    var s := "a://1:a";
    assert s[|scheme| + 1] == '/' && s[|scheme| + 2] == '/';
    assert |scheme| == 1;
    assert s[|scheme| + 3..] == rest;
  }

  lemma NoEnd(before: string, end: string)
    requires "1:a" == before + (end + "") && (end == "" || '?' in end || '#' in end)
    ensures end == ""
  {
    if '?' in end {
      InsideWhole(before, end, "", '?');
      assert false;
    } else if '#' in end {
      InsideWhole(before, end, "", '#');
      assert false;
    }
  }

  lemma EndBehind(authority: string, path: string, end: string)
    ensures authority + (path + end) == authority + path + (end + "")
  {
  }

  lemma OnePath(authority: string, path: string, end: string)
    requires "1:a" == authority + (path + end) && InLanguage(Authority(), authority) && InLanguage(UriEnd(), end)
    ensures !MayFollowAuthority(path)
  {
    EndOut(end);
    EndBehind(authority, path, end);
    NoEnd(authority + path, end);
    assert path + "" == path;
    NoSuchAuthority();
    PathBehind(authority, path);
  }

  lemma PathBehind(authority: string, path: string)
    requires "1:a" == authority + path && authority != "1:a"
    ensures !MayFollowAuthority(path)
  {
    assert path == "" ==> authority + path == authority;
    assert path[0] == (authority + path)[|authority|];
  }

  lemma ColonUri()
    ensures InLanguage(Uri(), "a://1:a")
  {
    ClassMeans(Alpha(), "a", []);
    OneCharScheme("a");
    HostCharsAreRegName("1");
    HostIsAuthority("1");
    ColonPath();
    EmptyEnds();
    PartsIn(Scheme(), Authority(), Paths(), UriEnd(), "a", "1", ":a", "");
    ColonText();
  }

  lemma ColonText()
    ensures "a" + ("://" + ("1" + (":a" + ""))) == "a://1:a"
  {
  }

  /** Right behind the authority `1` stands the path `:a`, or behind `1:` the path `a`; in no way can the
      text be taken apart as RFC 3986 wants it. */
  lemma PathRightAfterAuthority()
    ensures InLanguage(Uri(), "a://1:a")
    ensures forall scheme, authority, path, end ::
              IsUriOf("a://1:a", scheme, authority, path, end) ==> !MayFollowAuthority(path)
  {
    ColonUri();
    forall scheme, authority, path, end | IsUriOf("a://1:a", scheme, authority, path, end)
      ensures !MayFollowAuthority(path)
    {
      OneScheme(scheme, authority + (path + end));
      OnePath(authority, path, end);
    }
  }
}
