/** Printed identifiers: of votes, of deposits, and of nodes. */
module Ids {
  import opened Wrappers
  import opened Strings

  /** A vote or a deposit is identified by its proposal and an address. */
  datatype RowId = RowId(proposalId: int, address: string)

  function VoteText(id: RowId): string { Itoa(id.proposalId) + ['-'] + id.address }

  function DepositText(id: RowId): string {
    if id.address == "" then Itoa(id.proposalId) else Itoa(id.proposalId) + ['-'] + id.address
  }

  /** `ParseProposalVoteID` and `ParseProposalDepositID`, which are the same code. */
  function ParseRowId(s: string): Option<RowId> {
    var parts := Split(s, '-');
    if |parts| != 2 then None
    else match Atoi(parts[0])
      case None => None
      case Some(n) => Some(RowId(n, parts[1]))
  }

  lemma DigitAt(digits: string, rest: string, i: nat)
    requires i < |digits| && AllDigits(digits)
    ensures (digits + rest)[i] != '-'
  {
    assert digits[i] in digits;
  }

  lemma DigitsBeforeDash(n: nat, a: string, m: nat, b: string)
    requires Decimal(n) + a == Decimal(m) + b
    requires (a == "" || a[0] == '-') && (b == "" || b[0] == '-')
    ensures n == m && a == b
  {
    var s, i, j := Decimal(n) + a, |Decimal(n)|, |Decimal(m)|;
    if i < j {
      DigitAt(Decimal(m), b, i);
    } else if j < i {
      DigitAt(Decimal(n), a, j);
    }
    assert s[..i] == Decimal(n) && s[..j] == Decimal(m) && s[i..] == a && s[j..] == b;
    NumberDecimal(n);
    NumberDecimal(m);
  }

  /** The number in front of the first dash that is not a sign is determined by the text. */
  lemma ItoaBeforeDash(n: int, a: string, m: int, b: string)
    requires Itoa(n) + a == Itoa(m) + b
    requires (a == "" || a[0] == '-') && (b == "" || b[0] == '-')
    ensures n == m && a == b
  {
    var s := Itoa(n) + a;
    FirstOfItoa(n, a);
    FirstOfItoa(m, b);
    if n < 0 {
      assert s[1..] == Decimal(-n) + a && s[1..] == Decimal(-m) + b;
      DigitsBeforeDash(-n, a, -m, b);
    } else {
      DigitsBeforeDash(n, a, m, b);
    }
  }

  lemma FirstOfItoa(n: int, a: string)
    ensures (Itoa(n) + a)[0] == '-' <==> n < 0
    ensures n < 0 ==> (Itoa(n) + a)[1..] == Decimal(-n) + a
  {
    if n >= 0 {
      assert IsDigit(Decimal(n)[0]);
    }
  }

  /** No two votes print the same, nor two deposits, dashes in the address included. */
  lemma RowTextsInjective(x: RowId, y: RowId)
    ensures VoteText(x) == VoteText(y) ==> x == y
    ensures DepositText(x) == DepositText(y) ==> x == y
  {
    var a, b := ['-'] + x.address, ['-'] + y.address;
    assert VoteText(x) == Itoa(x.proposalId) + a && VoteText(y) == Itoa(y.proposalId) + b;
    if VoteText(x) == VoteText(y) {
      ItoaBeforeDash(x.proposalId, a, y.proposalId, b);
      assert a[1..] == x.address && b[1..] == y.address;
    }
    var c, d := if x.address == "" then "" else a, if y.address == "" then "" else b;
    assert DepositText(x) == Itoa(x.proposalId) + c && DepositText(y) == Itoa(y.proposalId) + d;
    if DepositText(x) == DepositText(y) {
      ItoaBeforeDash(x.proposalId, c, y.proposalId, d);
      assert a[1..] == x.address && b[1..] == y.address;
    }
  }

  lemma DecimalHasNoDash(n: nat)
    ensures '-' !in Decimal(n)
  {
  }

  /** Parsing undoes printing exactly for ids that are not negative and addresses without a dash;
      the text of a deposit must also have an address to print. */
  lemma RowTextsParse(id: RowId)
    requires MIN_INT <= id.proposalId <= MAX_INT
    ensures ParseRowId(VoteText(id)) == Some(id) <==> id.proposalId >= 0 && '-' !in id.address
    ensures ParseRowId(DepositText(id)) == Some(id) <==> id.proposalId >= 0 && '-' !in id.address && id.address != ""
  {
    var n := Itoa(id.proposalId);
    SplitInTwo(n, id.address, '-');
    AtoiItoa(id.proposalId);
    if id.proposalId >= 0 {
      DecimalHasNoDash(id.proposalId);
      SplitNoSep(n, '-');
    } else {
      assert n[0] == '-';
      NegativeAlone(-id.proposalId);
    }
  }

  /** The text of a negative id alone splits in two, but never back into an id without address. */
  lemma NegativeAlone(n: nat)
    ensures Split("-" + Decimal(n), '-') == ["", Decimal(n)] && Atoi("") == None
  {
    DecimalHasNoDash(n);
    SplitFirst("", Decimal(n), '-');
    SplitNoSep(Decimal(n), '-');
    assert "" + ['-'] + Decimal(n) == "-" + Decimal(n);
  }

  // ------------------------------------------------- node ids

  datatype NodeId = NodeId(entityType: string, id: string)

  function NodeText(n: NodeId): string { n.entityType + ['_'] + n.id }

  function ParseNodeId(s: string): Option<NodeId> {
    var parts := Split(s, '_');
    if |parts| != 2 then None else Some(NodeId(parts[0], ToLower(parts[1])))
  }

  /** A node id comes back, its second part in lower case, exactly when neither part has an underscore. */
  lemma NodeTextParses(n: NodeId)
    ensures ParseNodeId(NodeText(n))
         == if '_' !in n.entityType && '_' !in n.id then Some(NodeId(n.entityType, ToLower(n.id))) else None
  {
    SplitInTwo(n.entityType, n.id, '_');
  }

  lemma UpperOfLower(s: string)
    ensures ToUpper(ToLower(s)) == ToUpper(s)
    ensures ToUpper(s) == s <==> forall c <- s :: !('a' <= c <= 'z')
  {
    assert forall i :: 0 <= i < |s| ==> s[i] in s;
    if forall c <- s :: !('a' <= c <= 'z') {
      assert ToUpper(s) == s;
    }
    if ToUpper(s) == s {
      forall c <- s ensures !('a' <= c <= 'z') {
        var i :| 0 <= i < |s| && s[i] == c;
        assert ToUpper(s)[i] == UpperChar(c);
      }
    }
  }
}
