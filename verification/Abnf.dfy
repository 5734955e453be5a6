/** The rule language of the grammar builders (RFC 5234), its meaning as a relation
    between a text and the captures it yields, and an executable matcher that computes
    exactly that relation.  The `fkgi/abnf` library the server calls is represented by
    the meaning RFC 5234 section 3 gives its combinators. */
module Abnf {
  import opened Wrappers

  /** A keyed part of a matched text: what the server reads back with `Child(key)`. */
  datatype Capture = Capture(key: nat, text: string)

  datatype Rule =
    | Range(lo: char, hi: char)                          // VR, and V when lo == hi
    | Text(text: string)                                 // VS: case-sensitive text
    | Cat(first: Rule, second: Rule)                     // C
    | Alt(left: Rule, right: Rule)                       // A
    | Repeat(min: nat, max: Option<nat>, body: Rule)     // R0, R1, RN, RV, O
    | Keyed(key: nat, keyed: Rule)                       // K

  function Char(c: char): Rule { Range(c, c) }
  function Star(r: Rule): Rule { Repeat(0, None, r) }
  function Plus(r: Rule): Rule { Repeat(1, None, r) }
  function Exactly(n: nat, r: Rule): Rule { Repeat(n, Some(n), r) }
  function Optional(r: Rule): Rule { Repeat(0, Some(1), r) }

  // ---------------------------------------------------------------- meaning

  /** `s` is derived by `r`, and the keyed parts passed on the way are `c`,
      in the order of the text, a part before the parts inside it. */
  ghost predicate Means(r: Rule, s: string, c: seq<Capture>)
    decreases r, 0
  {
    match r
    case Range(lo, hi) => |s| == 1 && lo <= s[0] <= hi && c == []
    case Text(text) => s == text && c == []
    case Cat(a, b) =>
      exists i, j :: 0 <= i <= |s| && 0 <= j <= |c| && Means(a, s[..i], c[..j]) && Means(b, s[i..], c[j..])
    case Alt(a, b) => Means(a, s, c) || Means(b, s, c)
    case Repeat(min, max, body) => exists n: nat :: InBounds(n, min, max) && Times(body, n, s, c)
    case Keyed(k, body) => c != [] && c[0] == Capture(k, s) && Means(body, s, c[1..])
  }

  predicate InBounds(n: nat, min: nat, max: Option<nat>) {
    min <= n && (max.Some? ==> n <= max.value)
  }

  /** `s` is `n` consecutive texts derived by `body`. */
  ghost predicate Times(body: Rule, n: nat, s: string, c: seq<Capture>)
    decreases body, n + 1
  {
    if n == 0 then s == "" && c == []
    else
      exists i, j :: 0 <= i <= |s| && 0 <= j <= |c| && Means(body, s[..i], c[..j]) && Times(body, n - 1, s[i..], c[j..])
  }

  /** `s` belongs to the language of `r`. */
  ghost predicate InLanguage(r: Rule, s: string) {
    exists c :: Means(r, s, c)
  }

  lemma CatIntro(a: Rule, b: Rule, s1: string, c1: seq<Capture>, s2: string, c2: seq<Capture>)
    requires Means(a, s1, c1) && Means(b, s2, c2)
    ensures Means(Cat(a, b), s1 + s2, c1 + c2)
  {
    var s, c := s1 + s2, c1 + c2;
    assert s[..|s1|] == s1 && s[|s1|..] == s2 && c[..|c1|] == c1 && c[|c1|..] == c2;
  }

  lemma CatElim(a: Rule, b: Rule, s: string, c: seq<Capture>)
    returns (s1: string, c1: seq<Capture>, s2: string, c2: seq<Capture>)
    requires Means(Cat(a, b), s, c)
    ensures s == s1 + s2 && c == c1 + c2 && Means(a, s1, c1) && Means(b, s2, c2)
  {
    var i, j :| 0 <= i <= |s| && 0 <= j <= |c| && Means(a, s[..i], c[..j]) && Means(b, s[i..], c[j..]);
    s1, c1, s2, c2 := s[..i], c[..j], s[i..], c[j..];
  }

  lemma Cat4Elim(a: Rule, b: Rule, c: Rule, d: Rule, s: string, k: seq<Capture>)
    returns (ss: (string, string, string, string), ks: (seq<Capture>, seq<Capture>, seq<Capture>, seq<Capture>))
    requires Means(Cat(a, Cat(b, Cat(c, d))), s, k)
    ensures s == ss.0 + (ss.1 + (ss.2 + ss.3)) && k == ks.0 + (ks.1 + (ks.2 + ks.3))
    ensures Means(a, ss.0, ks.0) && Means(b, ss.1, ks.1) && Means(c, ss.2, ks.2) && Means(d, ss.3, ks.3)
  {
    var s1, k1, r1, q1 := CatElim(a, Cat(b, Cat(c, d)), s, k);
    var s2, k2, r2, q2 := CatElim(b, Cat(c, d), r1, q1);
    var s3, k3, s4, k4 := CatElim(c, d, r2, q2);
    ss, ks := (s1, s2, s3, s4), (k1, k2, k3, k4);
  }

  lemma Cat4Intro(a: Rule, b: Rule, c: Rule, d: Rule,
                  ss: (string, string, string, string), ks: (seq<Capture>, seq<Capture>, seq<Capture>, seq<Capture>))
    requires Means(a, ss.0, ks.0) && Means(b, ss.1, ks.1) && Means(c, ss.2, ks.2) && Means(d, ss.3, ks.3)
    ensures Means(Cat(a, Cat(b, Cat(c, d))), ss.0 + (ss.1 + (ss.2 + ss.3)), ks.0 + (ks.1 + (ks.2 + ks.3)))
  {
    CatIntro(c, d, ss.2, ks.2, ss.3, ks.3);
    CatIntro(b, Cat(c, d), ss.1, ks.1, ss.2 + ss.3, ks.2 + ks.3);
    CatIntro(a, Cat(b, Cat(c, d)), ss.0, ks.0, ss.1 + (ss.2 + ss.3), ks.1 + (ks.2 + ks.3));
  }

  lemma TimesStep(body: Rule, n: nat, s1: string, c1: seq<Capture>, s2: string, c2: seq<Capture>)
    requires Means(body, s1, c1) && Times(body, n, s2, c2)
    ensures Times(body, n + 1, s1 + s2, c1 + c2)
  {
    var s, c := s1 + s2, c1 + c2;
    assert s[..|s1|] == s1 && s[|s1|..] == s2 && c[..|c1|] == c1 && c[|c1|..] == c2;
  }

  lemma {:induction false} TimesAt(body: Rule, n: nat, s: string, c: seq<Capture>) returns (i: nat, j: nat)
    requires n > 0 && Times(body, n, s, c)
    ensures i <= |s| && j <= |c| && Means(body, s[..i], c[..j]) && Times(body, n - 1, s[i..], c[j..])
  {
    i, j :| 0 <= i <= |s| && 0 <= j <= |c| && Means(body, s[..i], c[..j]) && Times(body, n - 1, s[i..], c[j..]);
  }

  lemma {:induction false} TimesElim(body: Rule, n: nat, s: string, c: seq<Capture>)
    returns (s1: string, c1: seq<Capture>, s2: string, c2: seq<Capture>)
    requires n > 0 && Times(body, n, s, c)
    ensures s == s1 + s2 && c == c1 + c2 && Means(body, s1, c1) && Times(body, n - 1, s2, c2)
  {
    var i, j := TimesAt(body, n, s, c);
    s1, c1, s2, c2 := s[..i], c[..j], s[i..], c[j..];
  }

  /** One text of `body` is `1*body`, `*body` and `[body]`. */
  lemma Once(body: Rule, s: string, c: seq<Capture>)
    requires Means(body, s, c)
    ensures Times(body, 1, s, c)
  {
    assert Times(body, 0, "", []);
    TimesStep(body, 0, s, c, "", []);
    assert s + "" == s && c + [] == c;
  }

  /** `[r]` is either nothing or one `r` (RFC 5234 section 3.8). */
  lemma OptionalMeans(r: Rule, s: string, c: seq<Capture>)
    ensures Means(Optional(r), s, c) <==> (s == "" && c == []) || Means(r, s, c)
  {
    if s == "" && c == [] {
      assert Times(r, 0, s, c);
    }
    if Means(r, s, c) {
      Once(r, s, c);
    }
    if Means(Optional(r), s, c) {
      var n: nat :| InBounds(n, 0, Some(1)) && Times(r, n, s, c);
      if n == 1 {
        var s1, c1, s2, c2 := TimesElim(r, 1, s, c);
        assert s1 == s && c1 == c;
      }
    }
  }

  // ---------------------------------------------------------------- matcher

  datatype Match = Match(captures: seq<Capture>, rest: string)

  /** `rest` is what is left of `s` after a prefix of it. */
  predicate IsSuffix(rest: string, s: string) {
    |rest| <= |s| && rest == s[|s| - |rest|..]
  }

  /** The part of `s` before its suffix `rest`. */
  function Before(s: string, rest: string): string {
    if |rest| <= |s| then s[..|s| - |rest|] else ""
  }

  /** Every way `r` can match a prefix of `s`. */
  function Matches(r: Rule, s: string): set<Match>
    decreases r, 0, 0
  {
    match r
    case Range(lo, hi) => if s != "" && lo <= s[0] <= hi then {Match([], s[1..])} else {}
    case Text(text) => if text <= s then {Match([], s[|text|..])} else {}
    case Cat(a, b) => set m <- Matches(a, s), k <- Matches(b, m.rest) :: Match(m.captures + k.captures, k.rest)
    case Alt(a, b) => Matches(a, s) + Matches(b, s)
    case Repeat(min, max, body) => MatchesRepeat(body, min, max, s)
    case Keyed(k, body) => set m <- Matches(body, s) :: Match([Capture(k, Before(s, m.rest))] + m.captures, m.rest)
  }

  function Less(n: nat): nat { if n == 0 then 0 else n - 1 }

  function LessMax(max: Option<nat>): Option<nat> {
    match max case None => None case Some(n) => Some(Less(n))
  }

  /** Repetition by iterations that each consume something, which is what makes it terminate. */
  function MatchesRepeat(body: Rule, min: nat, max: Option<nat>, s: string): set<Match>
    decreases body, |s|, 1
  {
    (if min == 0 then {Match([], s)} else {}) +
    (if max == Some(0) then {}
     else set m <- Matches(body, s) | |m.rest| < |s|, k <- MatchesRepeat(body, Less(min), LessMax(max), m.rest)
            :: Match(m.captures + k.captures, k.rest))
  }

  /** Whether the whole of `s` is derived by `r`. */
  predicate Accepts(r: Rule, s: string) {
    exists m <- Matches(r, s) :: m.rest == ""
  }

  lemma CatMatch(a: Rule, b: Rule, s: string, m: Match, k: Match)
    requires m in Matches(a, s) && k in Matches(b, m.rest)
    ensures Match(m.captures + k.captures, k.rest) in Matches(Cat(a, b), s)
  {
  }

  lemma RepeatMatch(body: Rule, min: nat, max: Option<nat>, s: string, m: Match, k: Match)
    requires max != Some(0) && m in Matches(body, s) && |m.rest| < |s|
    requires k in MatchesRepeat(body, Less(min), LessMax(max), m.rest)
    ensures Match(m.captures + k.captures, k.rest) in MatchesRepeat(body, min, max, s)
  {
  }

  lemma RepeatUnmatch(body: Rule, min: nat, max: Option<nat>, s: string, r: Match) returns (m: Match, k: Match)
    requires r in MatchesRepeat(body, min, max, s) && !(min == 0 && r == Match([], s))
    ensures max != Some(0) && m in Matches(body, s) && |m.rest| < |s|
    ensures k in MatchesRepeat(body, Less(min), LessMax(max), m.rest)
    ensures r == Match(m.captures + k.captures, k.rest)
  {
    m, k :| m in Matches(body, s) && |m.rest| < |s| && k in MatchesRepeat(body, Less(min), LessMax(max), m.rest)
            && r == Match(m.captures + k.captures, k.rest);
  }

  lemma Assoc(a: string, b: string, c: string)
    ensures a + b + c == a + (b + c)
  {
  }

  lemma BeforeSplit(s: string, middle: string, rest: string)
    requires IsSuffix(middle, s) && IsSuffix(rest, middle)
    ensures IsSuffix(rest, s) && Before(s, rest) == Before(s, middle) + Before(middle, rest)
  {
  }

  lemma RepeatIntro(body: Rule, min: nat, max: Option<nat>, s: string, m: Match, k: Match)
    requires max != Some(0) && IsSuffix(m.rest, s) && Means(body, Before(s, m.rest), m.captures)
    requires IsSuffix(k.rest, m.rest)
    requires Means(Repeat(Less(min), LessMax(max), body), Before(m.rest, k.rest), k.captures)
    ensures IsSuffix(k.rest, s) && Means(Repeat(min, max, body), Before(s, k.rest), m.captures + k.captures)
  {
    BeforeSplit(s, m.rest, k.rest);
    var n: nat :| InBounds(n, Less(min), LessMax(max)) && Times(body, n, Before(m.rest, k.rest), k.captures);
    TimesStep(body, n, Before(s, m.rest), m.captures, Before(m.rest, k.rest), k.captures);
    assert InBounds(n + 1, min, max);
  }

  lemma {:induction false} MatchesSound(r: Rule, s: string, m: Match)
    requires m in Matches(r, s)
    ensures IsSuffix(m.rest, s) && Means(r, Before(s, m.rest), m.captures)
    decreases r, 0, 0
  {
    match r
    case Range(lo, hi) =>
    case Text(text) =>
    case Cat(a, b) =>
      var m1, k :| m1 in Matches(a, s) && k in Matches(b, m1.rest) && m == Match(m1.captures + k.captures, k.rest);
      MatchesSound(a, s, m1);
      MatchesSound(b, m1.rest, k);
      CatIntro(a, b, Before(s, m1.rest), m1.captures, Before(m1.rest, k.rest), k.captures);
      BeforeSplit(s, m1.rest, k.rest);
    case Alt(a, b) =>
      if m in Matches(a, s) { MatchesSound(a, s, m); } else { MatchesSound(b, s, m); }
    case Repeat(min, max, body) =>
      RepeatSound(body, min, max, s, m);
    case Keyed(k, body) =>
      var m1 :| m1 in Matches(body, s) && m == Match([Capture(k, Before(s, m1.rest))] + m1.captures, m1.rest);
      MatchesSound(body, s, m1);
      assert m.captures[1..] == m1.captures;
  }

  lemma {:induction false} RepeatSound(body: Rule, min: nat, max: Option<nat>, s: string, r: Match)
    requires r in MatchesRepeat(body, min, max, s)
    ensures IsSuffix(r.rest, s) && Means(Repeat(min, max, body), Before(s, r.rest), r.captures)
    decreases body, |s|, 1
  {
    if min == 0 && r == Match([], s) {
      assert Times(body, 0, Before(s, r.rest), r.captures);
    } else {
      var m, k := RepeatUnmatch(body, min, max, s, r);
      MatchesSound(body, s, m);
      RepeatSound(body, Less(min), LessMax(max), m.rest, k);
      RepeatIntro(body, min, max, s, m, k);
    }
  }

  /** Whether `r` derives the empty text. */
  predicate Nullable(r: Rule) {
    match r
    case Range(_, _) => false
    case Text(text) => text == ""
    case Cat(a, b) => Nullable(a) && Nullable(b)
    case Alt(a, b) => Nullable(a) || Nullable(b)
    case Repeat(min, _, body) => min == 0 || Nullable(body)
    case Keyed(_, body) => Nullable(body)
  }

  /** No repeated rule derives the empty text: otherwise one text would have infinitely many derivations. */
  predicate Proper(r: Rule) {
    match r
    case Range(_, _) => true
    case Text(_) => true
    case Cat(a, b) => Proper(a) && Proper(b)
    case Alt(a, b) => Proper(a) && Proper(b)
    case Repeat(_, _, body) => Proper(body) && !Nullable(body)
    case Keyed(_, body) => Proper(body)
  }

  lemma {:induction false} NonNullable(r: Rule, s: string, c: seq<Capture>)
    requires !Nullable(r) && Means(r, s, c)
    ensures s != ""
  {
    match r
    case Range(_, _) =>
    case Text(_) =>
    case Cat(a, b) =>
      var s1, c1, s2, c2 := CatElim(a, b, s, c);
      if !Nullable(a) { NonNullable(a, s1, c1); } else { NonNullable(b, s2, c2); }
    case Alt(a, b) =>
      if Means(a, s, c) { NonNullable(a, s, c); } else { NonNullable(b, s, c); }
    case Repeat(min, max, body) =>
      var n: nat :| InBounds(n, min, max) && Times(body, n, s, c);
      var s1, c1, s2, c2 := TimesElim(body, n, s, c);
      NonNullable(body, s1, c1);
    case Keyed(_, body) =>
      NonNullable(body, s, c[1..]);
  }

  lemma {:induction false} MatchesComplete(r: Rule, s: string, rest: string, c: seq<Capture>)
    requires Proper(r) && Means(r, s, c)
    ensures Match(c, rest) in Matches(r, s + rest)
    decreases r, 0, 0
  {
    match r
    case Range(lo, hi) =>
    case Text(text) =>
      assert (s + rest)[|s|..] == rest;
    case Cat(a, b) =>
      var s1, c1, s2, c2 := CatElim(a, b, s, c);
      Assoc(s1, s2, rest);
      MatchesComplete(a, s1, s2 + rest, c1);
      MatchesComplete(b, s2, rest, c2);
      CatMatch(a, b, s + rest, Match(c1, s2 + rest), Match(c2, rest));
    case Alt(a, b) =>
      if Means(a, s, c) { MatchesComplete(a, s, rest, c); } else { MatchesComplete(b, s, rest, c); }
    case Repeat(min, max, body) =>
      var n: nat :| InBounds(n, min, max) && Times(body, n, s, c);
      RepeatComplete(body, n, min, max, s, rest, c);
    case Keyed(k, body) =>
      MatchesComplete(body, s, rest, c[1..]);
      assert Match(c[1..], rest) in Matches(body, s + rest) && Before(s + rest, rest) == s;
      assert c == [Capture(k, s)] + c[1..];
  }

  lemma {:induction false} RepeatComplete(body: Rule, n: nat, min: nat, max: Option<nat>, s: string, rest: string,
                                          c: seq<Capture>)
    requires Proper(body) && !Nullable(body) && InBounds(n, min, max) && Times(body, n, s, c)
    ensures Match(c, rest) in MatchesRepeat(body, min, max, s + rest)
    decreases body, n, 1
  {
    if n == 0 {
      assert s + rest == rest;
    } else {
      var s1, c1, s2, c2 := TimesElim(body, n, s, c);
      NonNullable(body, s1, c1);
      Assoc(s1, s2, rest);
      MatchesComplete(body, s1, s2 + rest, c1);
      RepeatComplete(body, n - 1, Less(min), LessMax(max), s2, rest, c2);
      RepeatMatch(body, min, max, s + rest, Match(c1, s2 + rest), Match(c2, rest));
    }
  }

  /** The matcher computes the relation: every derivation of a prefix is found, and nothing else. */
  lemma MatchesExact(r: Rule, s: string, m: Match)
    requires Proper(r)
    ensures m in Matches(r, s) <==> IsSuffix(m.rest, s) && Means(r, Before(s, m.rest), m.captures)
  {
    if m in Matches(r, s) {
      MatchesSound(r, s, m);
    }
    if IsSuffix(m.rest, s) && Means(r, Before(s, m.rest), m.captures) {
      MatchesComplete(r, Before(s, m.rest), m.rest, m.captures);
      assert Before(s, m.rest) + m.rest == s;
    }
  }

  lemma AcceptsExact(r: Rule, s: string)
    requires Proper(r)
    ensures Accepts(r, s) <==> InLanguage(r, s)
  {
    if Accepts(r, s) {
      var m :| m in Matches(r, s) && m.rest == "";
      MatchesSound(r, s, m);
      assert Before(s, "") == s;
    }
    if InLanguage(r, s) {
      var c :| Means(r, s, c);
      MatchesComplete(r, s, "", c);
      assert s + "" == s;
      assert Match(c, "") in Matches(r, s);
    }
  }

  // ------------------------------------------------- what a rule cannot derive

  /** No terminal of `r` admits `ch`. */
  predicate Avoids(r: Rule, ch: char) {
    match r
    case Range(lo, hi) => !(lo <= ch <= hi)
    case Text(text) => ch !in text
    case Cat(a, b) => Avoids(a, ch) && Avoids(b, ch)
    case Alt(a, b) => Avoids(a, ch) && Avoids(b, ch)
    case Repeat(_, _, body) => Avoids(body, ch)
    case Keyed(_, body) => Avoids(body, ch)
  }

  /** `r` keys no part of the text. */
  predicate Keyless(r: Rule) {
    match r
    case Range(_, _) => true
    case Text(_) => true
    case Cat(a, b) => Keyless(a) && Keyless(b)
    case Alt(a, b) => Keyless(a) && Keyless(b)
    case Repeat(_, _, body) => Keyless(body)
    case Keyed(_, _) => false
  }

  lemma {:induction false} AvoidsSound(r: Rule, ch: char, s: string, c: seq<Capture>)
    requires Avoids(r, ch) && Means(r, s, c)
    ensures ch !in s
    decreases r, 0
  {
    match r
    case Range(_, _) =>
    case Text(_) =>
    case Cat(a, b) =>
      var s1, c1, s2, c2 := CatElim(a, b, s, c);
      AvoidsSound(a, ch, s1, c1);
      AvoidsSound(b, ch, s2, c2);
    case Alt(a, b) =>
      if Means(a, s, c) { AvoidsSound(a, ch, s, c); } else { AvoidsSound(b, ch, s, c); }
    case Repeat(min, max, body) =>
      var n: nat :| InBounds(n, min, max) && Times(body, n, s, c);
      AvoidsTimes(body, ch, n, s, c);
    case Keyed(_, body) =>
      AvoidsSound(body, ch, s, c[1..]);
  }

  lemma {:induction false} AvoidsTimes(body: Rule, ch: char, n: nat, s: string, c: seq<Capture>)
    requires Avoids(body, ch) && Times(body, n, s, c)
    ensures ch !in s
    decreases body, n + 1
  {
    if n > 0 {
      var s1, c1, s2, c2 := TimesElim(body, n, s, c);
      AvoidsSound(body, ch, s1, c1);
      AvoidsTimes(body, ch, n - 1, s2, c2);
    }
  }

  lemma {:induction false} KeylessSound(r: Rule, s: string, c: seq<Capture>)
    requires Keyless(r) && Means(r, s, c)
    ensures c == []
    decreases r, 0
  {
    match r
    case Range(_, _) =>
    case Text(_) =>
    case Cat(a, b) =>
      var s1, c1, s2, c2 := CatElim(a, b, s, c);
      KeylessSound(a, s1, c1);
      KeylessSound(b, s2, c2);
    case Alt(a, b) =>
      if Means(a, s, c) { KeylessSound(a, s, c); } else { KeylessSound(b, s, c); }
    case Repeat(min, max, body) =>
      var n: nat :| InBounds(n, min, max) && Times(body, n, s, c);
      KeylessTimes(body, n, s, c);
    case Keyed(_, _) =>
  }

  lemma {:induction false} KeylessTimes(body: Rule, n: nat, s: string, c: seq<Capture>)
    requires Keyless(body) && Times(body, n, s, c)
    ensures |c| == 0
    decreases body, n + 1
  {
    if n > 0 {
      var i, j := TimesAt(body, n, s, c);
      KeylessSound(body, s[..i], c[..j]);
      KeylessTimes(body, n - 1, s[i..], c[j..]);
    }
  }

  // ------------------------------------------------- rules with a single text

  /** The one text of a rule made of fixed characters only. */
  function LiteralOf(r: Rule): Option<string> {
    match r
    case Range(lo, hi) => if lo == hi then Some([lo]) else None
    case Text(text) => Some(text)
    case Cat(a, b) =>
      if LiteralOf(a).Some? && LiteralOf(b).Some? then Some(LiteralOf(a).value + LiteralOf(b).value) else None
    case _ => None
  }

  lemma {:induction false} LiteralMeans(r: Rule, s: string, c: seq<Capture>)
    requires LiteralOf(r).Some?
    ensures Means(r, s, c) <==> s == LiteralOf(r).value && c == []
  {
    match r
    case Range(lo, hi) =>
    case Text(text) =>
    case Cat(a, b) =>
      if Means(r, s, c) {
        var s1, c1, s2, c2 := CatElim(a, b, s, c);
        LiteralMeans(a, s1, c1);
        LiteralMeans(b, s2, c2);
      }
      if s == LiteralOf(r).value && c == [] {
        LiteralMeans(a, LiteralOf(a).value, []);
        LiteralMeans(b, LiteralOf(b).value, []);
        CatIntro(a, b, LiteralOf(a).value, [], LiteralOf(b).value, []);
      }
  }

  /** A fixed text in front of another rule. */
  lemma LiteralFirst(a: Rule, b: Rule, s: string, c: seq<Capture>) returns (rest: string)
    requires LiteralOf(a).Some? && Means(Cat(a, b), s, c)
    ensures s == LiteralOf(a).value + rest && Means(b, rest, c)
  {
    var s1, c1, s2, c2 := CatElim(a, b, s, c);
    LiteralMeans(a, s1, c1);
    assert c == c2;
    rest := s2;
  }

  lemma LiteralFirstIntro(a: Rule, b: Rule, s: string, c: seq<Capture>)
    requires LiteralOf(a).Some? && Means(b, s, c)
    ensures Means(Cat(a, b), LiteralOf(a).value + s, c)
  {
    LiteralMeans(a, LiteralOf(a).value, []);
    CatIntro(a, b, LiteralOf(a).value, [], s, c);
    assert [] + c == c;
  }

  /** A fixed text after another rule. */
  lemma LiteralLast(a: Rule, b: Rule, s: string, c: seq<Capture>) returns (first: string)
    requires LiteralOf(b).Some? && Means(Cat(a, b), s, c)
    ensures s == first + LiteralOf(b).value && Means(a, first, c)
  {
    var s1, c1, s2, c2 := CatElim(a, b, s, c);
    LiteralMeans(b, s2, c2);
    assert c == c1;
    first := s1;
  }

  lemma LiteralLastIntro(a: Rule, b: Rule, s: string, c: seq<Capture>)
    requires LiteralOf(b).Some? && Means(a, s, c)
    ensures Means(Cat(a, b), s + LiteralOf(b).value, c)
  {
    LiteralMeans(b, LiteralOf(b).value, []);
    CatIntro(a, b, s, c, LiteralOf(b).value, []);
    assert c + [] == c;
  }
}
