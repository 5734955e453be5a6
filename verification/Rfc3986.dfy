/** The URI rules of RFC 3986 Appendix A as the server builds them. */
module Rfc3986 {
  import opened Abnf

  // RFC 5234 appendix B.1
  function Alpha(): Rule { Alt(Range('A', 'Z'), Range('a', 'z')) }
  function Digit(): Rule { Range('0', '9') }
  function AlphaNum(): Rule { Alt(Alpha(), Digit()) }
  function HexDig(): Rule { Alt(Digit(), Alt(Range('A', 'F'), Range('a', 'f'))) }

  function Unreserved(): Rule {
    Alt(AlphaNum(), Alt(Char('-'), Alt(Char('_'), Alt(Char('.'), Char('~')))))
  }

  function GenDelims(): Rule {
    Alt(Char(':'), Alt(Char('/'), Alt(Char('?'), Alt(Char('#'), Alt(Char('['), Alt(Char(']'), Char('@')))))))
  }

  // The fourth delimiter is a backslash; RFC 3986 has an apostrophe there.
  function SubDelims(): Rule {
    Alt(Char('!'), Alt(Char('$'), Alt(Char('&'), Alt(Char('\\'), Alt(Char('('), Alt(Char(')'),
    Alt(Char('*'), Alt(Char('+'), Alt(Char(','), Alt(Char(';'), Char('=')))))))))))
  }

  function Reserved(): Rule { Alt(GenDelims(), SubDelims()) }

  function PctEncoded(): Rule { Cat(Char('%'), Cat(HexDig(), HexDig())) }

  function Pchar(): Rule { Alt(Unreserved(), Alt(PctEncoded(), Alt(SubDelims(), Alt(Char(':'), Char('@'))))) }

  function Segment(): Rule { Star(Pchar()) }
  function SegmentNz(): Rule { Plus(Pchar()) }
  function SlashSegments(): Rule { Star(Cat(Char('/'), Segment())) }

  function PathAbEmpty(): Rule { SlashSegments() }
  function PathAbsolute(): Rule { Cat(Char('/'), Optional(Cat(SegmentNz(), SlashSegments()))) }
  function PathRootless(): Rule { Cat(SegmentNz(), SlashSegments()) }
  function PathEmpty(): Rule { Exactly(0, Pchar()) }

  function Query(): Rule { Star(Alt(Pchar(), Alt(Char('/'), Char('?')))) }
  function Fragment(): Rule { Star(Alt(Pchar(), Alt(Char('/'), Char('?')))) }

  function Scheme(): Rule { Cat(Alpha(), Star(Alt(AlphaNum(), Alt(Char('+'), Alt(Char('-'), Char('.')))))) }

  function DecOctet(): Rule {
    Alt(Digit(),
    Alt(Cat(Range('1', '9'), Digit()),
    Alt(Cat(Char('1'), Exactly(2, Digit())),
    Alt(Cat(Char('2'), Cat(Range('0', '4'), Digit())),
        Cat(Text("25"), Range('0', '5'))))))
  }

  function Ipv4Address(): Rule {
    Cat(DecOctet(), Cat(Char('.'), Cat(DecOctet(), Cat(Char('.'), Cat(DecOctet(), Cat(Char('.'), DecOctet()))))))
  }

  function RegName(): Rule { Star(Alt(Unreserved(), Alt(PctEncoded(), SubDelims()))) }
  function Host(): Rule { Alt(Ipv4Address(), RegName()) }
  function Port(): Rule { Star(Digit()) }
  function UserInfo(): Rule { Plus(Alt(Unreserved(), Alt(PctEncoded(), Alt(SubDelims(), Char(':'))))) }

  function Authority(): Rule {
    Cat(Optional(Cat(UserInfo(), Char('@'))), Cat(Host(), Optional(Cat(Char(':'), Port()))))
  }

  // Only the "//" form: every alternative path follows an authority.
  function HierPart(): Rule {
    Cat(Text("//"), Cat(Authority(), Alt(PathAbEmpty(), Alt(PathAbsolute(), Alt(PathRootless(), PathEmpty())))))
  }

  function Uri(): Rule {
    Cat(Scheme(), Cat(Char(':'), Cat(HierPart(),
      Cat(Optional(Cat(Char('?'), Query())), Optional(Cat(Char('#'), Fragment()))))))
  }

  /** A rule for one field of a line: no key inside it, no space, no line feed, finitely many derivations,
      and, with the delimiters as they are, no apostrophe. */
  predicate Plain(r: Rule) {
    Proper(r) && Keyless(r) && Avoids(r, ' ') && Avoids(r, '\n') && Avoids(r, '\'')
  }

  lemma PlainPair(a: Rule, b: Rule)
    requires Plain(a) && Plain(b)
    ensures Plain(Cat(a, b)) && Plain(Alt(a, b))
  {
  }

  lemma PlainLetters()
    ensures Plain(AlphaNum()) && Plain(HexDig()) && !Nullable(AlphaNum()) && !Nullable(HexDig())
  {
  }

  lemma PlainUnreserved()
    ensures Plain(Unreserved()) && !Nullable(Unreserved())
  {
    PlainLetters();
    PlainPair(AlphaNum(), Alt(Char('-'), Alt(Char('_'), Alt(Char('.'), Char('~')))));
  }

  lemma PlainSubDelims()
    ensures Plain(SubDelims()) && !Nullable(SubDelims())
  {
  }

  lemma PlainPctEncoded()
    ensures Plain(PctEncoded()) && !Nullable(PctEncoded())
  {
    PlainLetters();
    PlainPair(HexDig(), HexDig());
    PlainPair(Char('%'), Cat(HexDig(), HexDig()));
  }

  lemma PlainChars()
    ensures Plain(AlphaNum()) && Plain(HexDig()) && Plain(Unreserved()) && Plain(SubDelims()) && Plain(PctEncoded())
    ensures !Nullable(Unreserved()) && !Nullable(SubDelims()) && !Nullable(PctEncoded())
  {
    PlainLetters();
    PlainUnreserved();
    PlainSubDelims();
    PlainPctEncoded();
  }

  lemma PlainPchar()
    ensures Plain(Pchar()) && !Nullable(Pchar())
  {
    PlainChars();
  }

  /** Repetitions of a rule that always consumes something. */
  lemma PlainRepeats(r: Rule)
    requires Plain(r) && !Nullable(r)
    ensures Plain(Star(r)) && Plain(Plus(r)) && Plain(Optional(r)) && Plain(Exactly(0, r)) && !Nullable(Plus(r))
  {
  }

  /** A part that may be missing, behind the character that announces it. */
  lemma PlainAnnounced(c: char, r: Rule)
    requires Plain(r) && c != ' ' && c != '\n' && c != '\''
    ensures Plain(Char(c)) && Plain(Cat(Char(c), r)) && !Nullable(Cat(Char(c), r)) && Plain(Optional(Cat(Char(c), r)))
  {
  }

  lemma PlainDecOctet()
    ensures Plain(DecOctet())
  {
  }

  lemma PlainHost()
    ensures Plain(Host())
  {
    PlainChars();
    PlainDecOctet();
    PlainRepeats(Alt(Unreserved(), Alt(PctEncoded(), SubDelims())));
    PlainDotted(DecOctet());
  }

  lemma PlainDotted(r: Rule)
    requires Plain(r)
    ensures Plain(Cat(r, Cat(Char('.'), Cat(r, Cat(Char('.'), Cat(r, Cat(Char('.'), r)))))))
  {
    PlainPair(Char('.'), r);
    PlainPair(r, Cat(Char('.'), r));
    PlainPair(Char('.'), Cat(r, Cat(Char('.'), r)));
    PlainPair(r, Cat(Char('.'), Cat(r, Cat(Char('.'), r))));
    PlainPair(Char('.'), Cat(r, Cat(Char('.'), Cat(r, Cat(Char('.'), r)))));
  }

  lemma PlainUserInfo()
    ensures Plain(UserInfo())
  {
    PlainChars();
    PlainRepeats(Alt(Unreserved(), Alt(PctEncoded(), Alt(SubDelims(), Char(':')))));
  }

  lemma PlainAuthorityOf(user: Rule, host: Rule, port: Rule)
    requires Plain(user) && !Nullable(user) && Plain(host) && Plain(port)
    ensures Plain(Cat(Optional(Cat(user, Char('@'))), Cat(host, Optional(Cat(Char(':'), port)))))
  {
    PlainPair(user, Char('@'));
    PlainRepeats(Cat(user, Char('@')));
    PlainAnnounced(':', port);
    PlainPair(host, Optional(Cat(Char(':'), port)));
  }

  lemma PlainAuthority()
    ensures Plain(Authority())
  {
    PlainUserInfo();
    PlainHost();
    PlainRepeats(Digit());
    PlainAuthorityOf(UserInfo(), Host(), Port());
  }

  lemma PlainPathsOf(segment: Rule, segmentNz: Rule, empty: Rule)
    requires Plain(segment) && Plain(segmentNz) && Plain(empty) && !Nullable(segmentNz)
    ensures var slashes := Star(Cat(Char('/'), segment));
            Plain(Alt(slashes, Alt(Cat(Char('/'), Optional(Cat(segmentNz, slashes))),
                                   Alt(Cat(segmentNz, slashes), empty))))
  {
    var slashes := Star(Cat(Char('/'), segment));
    PlainAnnounced('/', segment);
    PlainRepeats(Cat(Char('/'), segment));
    PlainPair(segmentNz, slashes);
    PlainRepeats(Cat(segmentNz, slashes));
    PlainAnnounced('/', Optional(Cat(segmentNz, slashes)));
    PlainPair(Cat(segmentNz, slashes), empty);
    PlainPair(Cat(Char('/'), Optional(Cat(segmentNz, slashes))), Alt(Cat(segmentNz, slashes), empty));
  }

  lemma PlainPaths()
    ensures Plain(Alt(PathAbEmpty(), Alt(PathAbsolute(), Alt(PathRootless(), PathEmpty()))))
  {
    PlainPchar();
    PlainRepeats(Pchar());
    PlainPathsOf(Segment(), SegmentNz(), PathEmpty());
  }

  lemma PlainHierPartOf(a: Rule, p: Rule)
    requires Plain(a) && Plain(p)
    ensures Plain(Cat(Text("//"), Cat(a, p)))
  {
    PlainPair(a, p);
  }

  lemma PlainHierPart()
    ensures Plain(HierPart())
  {
    PlainPaths();
    PlainAuthority();
    PlainHierPartOf(Authority(), Alt(PathAbEmpty(), Alt(PathAbsolute(), Alt(PathRootless(), PathEmpty()))));
  }

  lemma PlainQuery()
    ensures Plain(Query()) && Plain(Fragment())
  {
    PlainPchar();
    PlainRepeats(Alt(Pchar(), Alt(Char('/'), Char('?'))));
  }

  lemma PlainScheme()
    ensures Plain(Scheme())
  {
    PlainChars();
    PlainRepeats(Alt(AlphaNum(), Alt(Char('+'), Alt(Char('-'), Char('.')))));
  }

  lemma PlainUriOf(scheme: Rule, hier: Rule, query: Rule, fragment: Rule)
    requires Plain(scheme) && Plain(hier) && Plain(query) && Plain(fragment)
    ensures Plain(Cat(scheme, Cat(Char(':'), Cat(hier,
              Cat(Optional(Cat(Char('?'), query)), Optional(Cat(Char('#'), fragment)))))))
  {
    PlainAnnounced('?', query);
    PlainAnnounced('#', fragment);
    PlainPair(Optional(Cat(Char('?'), query)), Optional(Cat(Char('#'), fragment)));
    PlainPair(hier, Cat(Optional(Cat(Char('?'), query)), Optional(Cat(Char('#'), fragment))));
    PlainAnnounced(':', Cat(hier, Cat(Optional(Cat(Char('?'), query)), Optional(Cat(Char('#'), fragment)))));
  }

  lemma PlainUri()
    ensures Plain(Uri())
  {
    PlainScheme();
    PlainHierPart();
    PlainQuery();
    PlainUriOf(Scheme(), HierPart(), Query(), Fragment());
  }
}
