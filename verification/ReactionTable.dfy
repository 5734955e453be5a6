/** The table of reactions and the two operations that change it. */
module ReactionTable {
  import opened Wrappers
  import opened Strings

  datatype TargetType = Proposal | Comment | Post

  /** The unique key of a row. */
  datatype Key = Key(address: string, targetType: TargetType, targetId: string)
  datatype Row = Row(key: Key, reaction: string)

  /** Rows by primary key. */
  type Table = map<string, Row>

  /** At most one row per address and target, as the table's unique constraint says. */
  ghost predicate Unique(t: Table) {
    forall i, j :: i in t && j in t && t[i].key == t[j].key ==> i == j
  }

  // ------------------------------------------------- check constraints

  predicate IsWord(c: char) { 'a' <= c <= 'z' || 'A' <= c <= 'Z' || '0' <= c <= '9' || c == '_' }

  /** `^:\w+:$` */
  predicate IsReaction(s: string) {
    |s| >= 3 && s[0] == ':' && s[|s| - 1] == ':' && forall c <- s[1..|s| - 1] :: IsWord(c)
  }

  /** `^[0-9]+$` */
  predicate IsNumeric(s: string) { s != "" && forall c <- s :: IsDigit(c) }

  predicate IsIscnChar(c: char) { IsWord(c) || c in "-.:=+," }

  /** From `i` on: `iscn://`, a part up to `j`, a slash, a part up to `k`, and perhaps a slash and a number. */
  predicate IscnAt(s: string, i: nat, j: nat, k: nat)
    requires i <= j <= k <= |s|
  {
    && i + 7 < j && j + 1 < k
    && s[i..i + 7] == "iscn://" && s[j] == '/'
    && (forall c <- s[i + 7..j] :: IsIscnChar(c)) && (forall c <- s[j + 1..k] :: IsIscnChar(c))
    && (k == |s| || (s[k] == '/' && IsNumeric(s[k + 1..])))
  }

  /** `iscn://([-_.:=+,a-zA-Z0-9]+)/([-_.:=+,a-zA-Z0-9]+)(?:/([0-9]+))?$` */
  predicate IsIscn(s: string) {
    exists i | 0 <= i <= |s| :: IscnFrom(s, i)
  }

  predicate IscnFrom(s: string, i: nat)
    requires i <= |s|
  {
    exists j | i <= j <= |s| :: IscnVia(s, i, j)
  }

  predicate IscnVia(s: string, i: nat, j: nat)
    requires i <= j <= |s|
  {
    exists k | j <= k <= |s| :: IscnAt(s, i, j, k)
  }

  predicate AllowedTarget(key: Key) {
    if key.targetType == Proposal then IsNumeric(key.targetId) else IsIscn(key.targetId)
  }

  predicate Allowed(row: Row) { IsReaction(row.reaction) && AllowedTarget(row.key) }

  ghost predicate Checked(t: Table) { forall i :: i in t ==> Allowed(t[i]) }

  // ------------------------------------------------- the same, written out

  const WORD_CHARS: set<char> := SMALL_LETTERS + CAPITAL_LETTERS + DIGITS + {'_'}

  const ISCN_CHARS: set<char> := WORD_CHARS + {'-', '.', ':', '=', '+', ','}

  lemma WordListed(c: char)
    ensures IsWord(c) <==> c in WORD_CHARS
  {
    SmallListed(c);
    CapitalListed(c);
    DigitListed(c);
  }

  lemma IscnListed(c: char)
    ensures IsIscnChar(c) <==> c in ISCN_CHARS
  {
    WordListed(c);
  }

  /** The condition says of each character whether it is listed. */
  ghost predicate Lists(chars: set<char>, has: char -> bool) { forall c :: has(c) <==> c in chars }

  lemma CharsListed()
    ensures Lists(DIGITS, IsDigit) && Lists(WORD_CHARS, IsWord) && Lists(ISCN_CHARS, IsIscnChar)
  {
    forall c ensures IsDigit(c) <==> c in DIGITS { DigitListed(c); }
    forall c ensures IsWord(c) <==> c in WORD_CHARS { WordListed(c); }
    forall c ensures IsIscnChar(c) <==> c in ISCN_CHARS { IscnListed(c); }
  }

  ghost predicate ReactionOfWord(s: string, w: string, chars: set<char>) {
    s == ":" + w + ":" && w != "" && AllIn(w, chars)
  }

  lemma ReactionBy(s: string, chars: set<char>)
    requires Lists(chars, IsWord)
    ensures IsReaction(s) <==> exists w :: ReactionOfWord(s, w, chars)
  {
    if IsReaction(s) {
      var w := s[1..|s| - 1];
      assert s == ":" + w + ":";
      assert ReactionOfWord(s, w, chars);
    }
    if w :| ReactionOfWord(s, w, chars) {
      assert s[1..|s| - 1] == w;
    }
  }

  ghost predicate DigitsText(s: string, digits: set<char>) { s != "" && AllIn(s, digits) }

  lemma NumericBy(s: string, digits: set<char>)
    requires Lists(digits, IsDigit)
    ensures IsNumeric(s) <==> DigitsText(s, digits)
  {
  }

  /** After anything, `iscn://`, two parts with a slash between them, and perhaps a slash and a number. */
  ghost predicate IscnOfParts(s: string, front: string, a: string, b: string, back: string, chars: set<char>,
                              digits: set<char>)
  {
    && s == front + ("iscn://" + (a + ("/" + (b + back))))
    && a != "" && b != "" && AllIn(a, chars) && AllIn(b, chars)
    && (back == "" || (back[0] == '/' && DigitsText(back[1..], digits)))
  }

  lemma Cut(s: string, i: nat, j: nat, k: nat)
    requires i + 7 <= j < k <= |s|
    ensures s == s[..i] + (s[i..i + 7] + (s[i + 7..j] + (s[j..j + 1] + (s[j + 1..k] + s[k..]))))
  {
  }

  lemma Joined(front: string, seven: string, a: string, slash: string, b: string, back: string)
    requires |seven| == 7 && |slash| == 1
    ensures var s, i := front + (seven + (a + (slash + (b + back)))), |front|;
            var j := i + 7 + |a|;
            var k := j + 1 + |b|;
            && k <= |s| && s[i..i + 7] == seven && s[i + 7..j] == a
            && s[j..j + 1] == slash && s[j + 1..k] == b && s[k..] == back
  {
  }

  lemma IscnCut(s: string, i: nat, j: nat, k: nat, chars: set<char>, digits: set<char>)
    requires i <= j <= k <= |s| && IscnAt(s, i, j, k) && Lists(chars, IsIscnChar) && Lists(digits, IsDigit)
    ensures IscnOfParts(s, s[..i], s[i + 7..j], s[j + 1..k], s[k..], chars, digits)
  {
    Cut(s, i, j, k);
    assert s[j..j + 1] == "/";
    if k < |s| {
      NumericBy(s[k + 1..], digits);
      assert s[k..][1..] == s[k + 1..];
    }
  }

  lemma IscnJoined(s: string, front: string, a: string, b: string, back: string, chars: set<char>, digits: set<char>)
    requires IscnOfParts(s, front, a, b, back, chars, digits) && Lists(chars, IsIscnChar) && Lists(digits, IsDigit)
    ensures IsIscn(s)
  {
    var i := |front|;
    var j := i + 7 + |a|;
    var k := j + 1 + |b|;
    Joined(front, "iscn://", a, "/", b, back);
    assert s[j..j + 1][0] == s[j];
    if back != "" {
      NumericBy(back[1..], digits);
      assert s[k..][0] == s[k] && s[k..][1..] == s[k + 1..];
    }
    assert IscnAt(s, i, j, k);
    assert IscnVia(s, i, j);
    assert IscnFrom(s, i);
  }

  lemma IscnTaken(s: string, chars: set<char>, digits: set<char>)
    returns (front: string, a: string, b: string, back: string)
    requires IsIscn(s) && Lists(chars, IsIscnChar) && Lists(digits, IsDigit)
    ensures IscnOfParts(s, front, a, b, back, chars, digits)
  {
    var i :| 0 <= i <= |s| && IscnFrom(s, i);
    var j :| i <= j <= |s| && IscnVia(s, i, j);
    var k :| j <= k <= |s| && IscnAt(s, i, j, k);
    IscnCut(s, i, j, k, chars, digits);
    front, a, b, back := s[..i], s[i + 7..j], s[j + 1..k], s[k..];
  }

  lemma IscnBy(s: string, chars: set<char>, digits: set<char>)
    requires Lists(chars, IsIscnChar) && Lists(digits, IsDigit)
    ensures IsIscn(s) <==> exists front, a, b, back :: IscnOfParts(s, front, a, b, back, chars, digits)
  {
    if IsIscn(s) {
      var front, a, b, back := IscnTaken(s, chars, digits);
    }
    if front, a, b, back :| IscnOfParts(s, front, a, b, back, chars, digits) {
      IscnJoined(s, front, a, b, back, chars, digits);
    }
  }

  /** A reaction is a word between colons. */
  lemma ReactionExact(s: string)
    ensures IsReaction(s) <==> exists w :: ReactionOfWord(s, w, WORD_CHARS)
  {
    CharsListed();
    ReactionBy(s, WORD_CHARS);
  }

  lemma NumericExact(s: string)
    ensures IsNumeric(s) <==> DigitsText(s, DIGITS)
  {
    CharsListed();
    NumericBy(s, DIGITS);
  }

  lemma IscnExact(s: string)
    ensures IsIscn(s) <==> exists front, a, b, back :: IscnOfParts(s, front, a, b, back, ISCN_CHARS, DIGITS)
  {
    CharsListed();
    IscnBy(s, ISCN_CHARS, DIGITS);
  }

  /** What the table takes: a word between colons, on a number for a proposal and on an ISCN for the rest. */
  ghost predicate Storable(row: Row) {
    && (exists w :: ReactionOfWord(row.reaction, w, WORD_CHARS))
    && (if row.key.targetType == Proposal then DigitsText(row.key.targetId, DIGITS)
        else exists front, a, b, back :: IscnOfParts(row.key.targetId, front, a, b, back, ISCN_CHARS, DIGITS))
  }

  lemma AllowedExact(row: Row)
    ensures Allowed(row) <==> Storable(row)
  {
    ReactionExact(row.reaction);
    NumericExact(row.key.targetId);
    IscnExact(row.key.targetId);
  }

  lemma IscnHasLetter(s: string)
    requires IsIscn(s)
    ensures 'i' in s
  {
    var i :| 0 <= i <= |s| && IscnFrom(s, i);
    var j :| i <= j <= |s| && IscnVia(s, i, j);
    var k :| j <= k <= |s| && IscnAt(s, i, j, k);
    assert s[i..i + 7][0] == 'i';
    assert s[i] in s;
  }

  /** A numeric target id names a proposal. */
  lemma NumericIsProposal(key: Key)
    requires AllowedTarget(key) && IsNumeric(key.targetId)
    ensures key.targetType == Proposal
  {
    if IsIscn(key.targetId) {
      IscnHasLetter(key.targetId);
    }
  }

  // ------------------------------------------------- whole operations

  /** The row of a key; the unique constraint leaves no choice. */
  ghost function Find(t: Table, key: Key): (id: Option<string>)
    ensures id.Some? ==> id.value in t && t[id.value].key == key
    ensures id.None? <==> forall i :: i in t ==> t[i].key != key
  {
    if exists i :: i in t && t[i].key == key then
      var i :| i in t && t[i].key == key;
      Some(i)
    else None
  }

  lemma FindUnique(t: Table, key: Key, id: string)
    requires Unique(t) && id in t && t[id].key == key
    ensures Find(t, key) == Some(id)
  {
  }

  /** INSERT ... ON CONFLICT DO UPDATE SET reaction: the row that is there keeps its id. */
  ghost function Upsert(t: Table, key: Key, reaction: string, newId: string): Table {
    var row := Row(key, reaction);
    if !Allowed(row) then t
    else match Find(t, key)
      case Some(id) => t[id := row]
      case None => t[newId := row]
  }

  /** Read the row of the key and delete it by its id, with nothing in between. */
  ghost function Unset(t: Table, key: Key): Table {
    match Find(t, key)
    case Some(id) => t - {id}
    case None => t
  }

  lemma UpsertKeeps(t: Table, key: Key, reaction: string, newId: string)
    requires Unique(t) && newId !in t
    ensures Unique(Upsert(t, key, reaction, newId))
    ensures Checked(t) ==> Checked(Upsert(t, key, reaction, newId))
  {
  }

  /** The reaction of a key. */
  ghost function ReactionOf(t: Table, key: Key): Option<string> {
    match Find(t, key)
    case Some(id) => Some(t[id].reaction)
    case None => None
  }

  /** What the operations do to reactions: they set or clear one key and leave every other key alone. */
  lemma OperationsAffectOneKey(t: Table, key: Key, reaction: string, newId: string, other: Key)
    requires Unique(t) && newId !in t
    ensures ReactionOf(Unset(t, key), other) == if other == key then None else ReactionOf(t, other)
    ensures Allowed(Row(key, reaction))
            ==> ReactionOf(Upsert(t, key, reaction, newId), other)
                == if other == key then Some(reaction) else ReactionOf(t, other)
  {
    UpsertKeeps(t, key, reaction, newId);
    var u := Upsert(t, key, reaction, newId);
    if Find(t, other).Some? {
      var id := Find(t, other).value;
      if other != key {
        FindUnique(u, other, id);
        FindUnique(Unset(t, key), other, id);
      }
    }
    if Allowed(Row(key, reaction)) {
      var id := if Find(t, key).Some? then Find(t, key).value else newId;
      FindUnique(u, key, id);
    }
  }

  /** The reactions the client offers. */
  const CLIENT_REACTIONS: set<string> :=
    {":likecoin:", ":like:", ":dislike:", ":confused:", ":thinking:", ":bored:", ":whatever:"}

  /** Each of them is stored on every proposal. */
  lemma ClientReactionStored(t: Table, address: string, n: nat, reaction: string, newId: string)
    requires Unique(t) && newId !in t && reaction in CLIENT_REACTIONS
    ensures var key := Key(address, Proposal, Itoa(n));
            Storable(Row(key, reaction)) && ReactionOf(Upsert(t, key, reaction, newId), key) == Some(reaction)
  {
    var key := Key(address, Proposal, Itoa(n));
    ClientReactionIsWord(reaction);
    NumberIsTarget(n);
    AllowedExact(Row(key, reaction));
    OperationsAffectOneKey(t, key, reaction, newId, key);
  }

  lemma ClientReactionIsWord(reaction: string)
    requires reaction in CLIENT_REACTIONS
    ensures IsReaction(reaction)
  {
  }

  lemma NumberIsTarget(n: nat)
    ensures IsNumeric(Itoa(n)) && DigitsText(Itoa(n), DIGITS)
  {
    NumericExact(Itoa(n));
  }

  // ------------------------------------------------- the mutator

  class ReactionMutator {
    var rows: Table

    constructor ()
      ensures rows == map[]
    {
      rows := map[];
    }

    /** The statement fails, and changes nothing, when the row breaks a check constraint. */
    method SetReaction(key: Key, reaction: string, newId: string) returns (result: Option<Row>)
      requires Unique(rows) && newId !in rows
      modifies this
      ensures Unique(rows) && rows == Upsert(old(rows), key, reaction, newId)
      ensures result == if Allowed(Row(key, reaction)) then Some(Row(key, reaction)) else None
      ensures result.Some? <==> Storable(Row(key, reaction))
      ensures result.Some? ==> result.value == Row(key, reaction) && ReactionOf(rows, key) == Some(reaction)
      ensures result.None? ==> rows == old(rows)
    {
      AllowedExact(Row(key, reaction));
      OperationsAffectOneKey(rows, key, reaction, newId, key);
      UpsertKeeps(rows, key, reaction, newId);
      var row := Row(key, reaction);
      if !Allowed(row) {
        return None;
      }
      var conflicts := set i | i in rows && rows[i].key == key;
      assert forall i :: i in rows && rows[i].key == key ==> i in conflicts;
      if conflicts == {} {
        rows := rows[newId := row];
      } else {
        var id :| id in conflicts;
        FindUnique(rows, key, id);
        rows := rows[id := row];
      }
      result := Some(row);
    }

    /** Both statements of `UnsetReaction` with nothing between them; None is the error of an empty read. */
    method UnsetReaction(key: Key) returns (result: Option<Row>)
      requires Unique(rows)
      modifies this
      ensures Unique(rows) && rows == Unset(old(rows), key)
      ensures result.Some? <==> Find(old(rows), key).Some?
      ensures result.Some? ==> result == Some(old(rows)[Find(old(rows), key).value])
    {
      var found := set i | i in rows && rows[i].key == key;
      assert forall i :: i in rows && rows[i].key == key ==> i in found;
      if found == {} {
        return None;
      }
      var id :| id in found;
      FindUnique(rows, key, id);
      result := Some(rows[id]);
      rows := rows - {id};
    }
  }
}
