/** What concurrent calls are told, next to what the sequential order of the same calls would tell them. */
module ReactionAnswers {
  import opened Wrappers
  import opened ReactionTable
  import opened ReactionSchedule

  /** The row a call reports; None stands for its error. */
  type Answer = Option<Row>

  /** The answer is settled by the first statement of a call: a delete only confirms it. */
  ghost function FirstAnswer(w: World, s: Step): Answer
    requires Enabled(w, s) && !s.DeleteRow?
  {
    match s
    case SetRow(_, key, reaction, _) => if Allowed(Row(key, reaction)) then Some(Row(key, reaction)) else None
    case ReadRow(_, key) => RowOf(w.table, key)
  }

  ghost function RowOf(t: Table, key: Key): Answer {
    match Find(t, key) case Some(id) => Some(t[id]) case None => None
  }

  /** The answer of a whole call, executed with nothing in between. */
  ghost function WholeAnswer(t: Table, op: Operation): Answer {
    match op
    case SetOp(key, reaction, _) => if Allowed(Row(key, reaction)) then Some(Row(key, reaction)) else None
    case UnsetOp(key) => RowOf(t, key)
  }

  ghost function ToldAfter(told: map<nat, Answer>, w: World, s: Step): map<nat, Answer>
    requires Enabled(w, s)
  {
    if s.DeleteRow? then told else told[s.call := FirstAnswer(w, s)]
  }

  /** The answers after step `i` are those before it and that of the call it starts. */
  ghost predicate ToldAt(worlds: seq<World>, steps: seq<Step>, told: seq<map<nat, Answer>>, i: nat) {
    && i < |steps| && i < |worlds| && i + 1 < |told|
    && Enabled(worlds[i], steps[i]) && told[i + 1] == ToldAfter(told[i], worlds[i], steps[i])
  }

  /** A run, and the answers given up to each of its worlds. */
  ghost predicate AnsweredRun(worlds: seq<World>, steps: seq<Step>, commits: seq<seq<nat>>,
                              told: seq<map<nat, Answer>>)
  {
    && Run(worlds, steps, commits)
    && |told| == |worlds| && told[0] == map[]
    && forall i: nat :: i < |steps| ==> ToldAt(worlds, steps, told, i)
  }

  /** Every run has its answers. */
  lemma {:induction false} RunHasAnswers(worlds: seq<World>, steps: seq<Step>, commits: seq<seq<nat>>, n: nat)
    returns (told: seq<map<nat, Answer>>)
    requires Run(worlds, steps, commits) && n <= |steps|
    ensures |told| == n + 1 && told[0] == map[]
    ensures forall i: nat :: i < n ==> ToldAt(worlds, steps, told, i)
  {
    if n == 0 {
      told := [map[]];
    } else {
      var before := RunHasAnswers(worlds, steps, commits, n - 1);
      assert StepAt(worlds, steps, commits, n - 1);
      told := before + [ToldAfter(before[n - 1], worlds[n - 1], steps[n - 1])];
      forall i: nat | i < n - 1 ensures ToldAt(worlds, steps, told, i) {
        assert ToldAt(worlds, steps, before, i);
      }
    }
  }

  // ------------------------------------------------- agreement

  /** Whether two answers agree: on success, or on the reported row as well. */
  ghost predicate Same(a: Answer, b: Answer, rows: bool) {
    if rows then a == b else a.Some? == b.Some?
  }

  /** The call at position `p` of the order is told what it would be told there. */
  ghost predicate SameAt(told: map<nat, Answer>, t: Table, ops: map<nat, Operation>, order: seq<nat>, p: nat,
                         rows: bool)
    requires p < |order|
  {
    var c := order[p];
    c in told && c in ops && Same(told[c], WholeAnswer(Replay(t, ops, order, p), ops[c]), rows)
  }

  ghost predicate AllSame(told: map<nat, Answer>, t: Table, ops: map<nat, Operation>, order: seq<nat>, rows: bool) {
    forall p: nat :: p < |order| ==> SameAt(told, t, ops, order, p, rows)
  }

  /** A step that commits at most one call, and (for rows to agree) deletes its row as the call has read it. */
  ghost predicate Fair(w: World, s: Step, new': seq<nat>, told: map<nat, Answer>, rows: bool) {
    |new'| <= 1 && (rows && s.DeleteRow? && |new'| == 1 ==> AsRead(w, s.call, told))
  }

  /** The row a pending unset is about to delete is the one it read. */
  ghost predicate AsRead(w: World, call: nat, told: map<nat, Answer>) {
    call in w.pending && w.pending[call].id in w.table && call in told
        && told[call] == Some(w.table[w.pending[call].id])
  }

  /** Every call has an answer, and a pending unset was told of a row. */
  ghost predicate Answered(w: World, told: map<nat, Answer>) {
    && told.Keys == w.calls.Keys
    && forall c :: c in w.pending ==> c in told && told[c].Some?
  }

  lemma StepAnswered(w: World, s: Step, told: map<nat, Answer>)
    requires Enabled(w, s) && Answered(w, told)
    ensures Answered(Next(w, s), ToldAfter(told, w, s))
  {
  }

  lemma {:induction false} RunAnswered(worlds: seq<World>, steps: seq<Step>, commits: seq<seq<nat>>,
                                       told: seq<map<nat, Answer>>, n: nat)
    requires AnsweredRun(worlds, steps, commits, told) && n <= |steps|
    ensures Answered(worlds[n], told[n])
  {
    if n > 0 {
      RunAnswered(worlds, steps, commits, told, n - 1);
      assert StepAt(worlds, steps, commits, n - 1) && ToldAt(worlds, steps, told, n - 1);
      StepAnswered(worlds[n - 1], steps[n - 1], told[n - 1]);
    }
  }

  // ------------------------------------------------- one step

  /** Of the calls a delete completes, the order finds a row for the first only. */
  lemma DeleteFinds(w: World, call: nat, k: nat)
    requires Inv(w) && call in w.pending && k < |Committed(w, DeleteRow(call))|
    ensures var order, id := Committed(w, DeleteRow(call)), w.pending[call].id;
            && order[k] in w.calls && id in w.table
            && WholeAnswer(Replay(w.table, w.calls, order, k), w.calls[order[k]])
               == if k == 0 then Some(w.table[id]) else None
  {
    var order, id, key := Committed(w, DeleteRow(call)), w.pending[call].id, w.pending[call].key;
    DeleteReplay(w, call, k);
    DeleteCompletes(w, call, order[k]);
    if k > 0 {
      assert Find(w.table - {id}, key).None?;
    }
  }

  lemma DeleteCommits(w: World, call: nat)
    requires Inv(w) && call in w.pending
    ensures var order := Committed(w, DeleteRow(call));
            && (|order| > 0 <==> w.pending[call].id in w.table)
            && (|order| > 0 ==> order[0] == call)
            && (|order| > 1 <==> w.pending[call].id in w.table && Readers(w, w.pending[call].id, call) != {})
            && forall c <- order :: c in w.pending
  {
    var others := Readers(w, w.pending[call].id, call);
    ListedOnce(others);
    if others != {} {
      var c :| c in others;
      assert c in Listed(others);
    } else {
      assert |Listed(others)| == 0;
    }
  }

  lemma DeleteSame(w: World, call: nat, told: map<nat, Answer>, k: nat, rows: bool)
    requires Inv(w) && call in w.pending && Answered(w, told) && k < |Committed(w, DeleteRow(call))|
    ensures SameAt(told, w.table, w.calls, Committed(w, DeleteRow(call)), k, rows)
       <==> k == 0 && (rows ==> told[call] == Some(w.table[w.pending[call].id]))
  {
    var order := Committed(w, DeleteRow(call));
    DeleteFinds(w, call, k);
    DeleteCommits(w, call);
    assert order[k] in order;
  }

  /** The calls that take effect at a step are told what the order tells them exactly when the step is fair. */
  lemma StepSame(w: World, s: Step, told: map<nat, Answer>, rows: bool)
    requires Inv(w) && Enabled(w, s) && Answered(w, told)
    ensures AllSame(ToldAfter(told, w, s), w.table, Next(w, s).calls, Committed(w, s), rows)
       <==> Fair(w, s, Committed(w, s), told, rows)
  {
    if s.DeleteRow? {
      var order := Committed(w, s);
      DeleteCommits(w, s.call);
      forall k: nat | k < |order|
        ensures SameAt(told, w.table, w.calls, order, k, rows)
           <==> k == 0 && (rows ==> told[s.call] == Some(w.table[w.pending[s.call].id]))
      {
        DeleteSame(w, s.call, told, k, rows);
      }
      if |order| > 0 {
        DeleteSame(w, s.call, told, 0, rows);
      }
      if |order| > 1 {
        DeleteSame(w, s.call, told, 1, rows);
      }
    }
  }

  // ------------------------------------------------- whole runs

  lemma SameLater(t: Table, ops: map<nat, Operation>, more: map<nat, Operation>, told: map<nat, Answer>,
                  longer: map<nat, Answer>, a: seq<nat>, b: seq<nat>, p: nat, rows: bool)
    requires p < |a| && forall j :: 0 <= j <= p ==> a[j] in ops && a[j] in more && more[a[j]] == ops[a[j]]
    requires a[p] in told && a[p] in longer && longer[a[p]] == told[a[p]]
    ensures SameAt(told, t, ops, a, p, rows) <==> SameAt(longer, t, more, a + b, p, rows)
  {
    assert forall j :: 0 <= j <= p ==> (a + b)[j] == a[j];
    ReplayAgree(t, ops, more, a, a + b, p);
  }

  lemma SameBehind(t: Table, ops: map<nat, Operation>, told: map<nat, Answer>, a: seq<nat>, b: seq<nat>, k: nat,
                   rows: bool)
    requires k < |b| && forall c <- a :: c in ops
    ensures SameAt(told, t, ops, a + b, |a| + k, rows) <==> SameAt(told, Replay(t, ops, a, |a|), ops, b, k, rows)
  {
    ReplayConcat(t, ops, a, b, k);
    assert (a + b)[|a| + k] == b[k];
  }

  /** The answers of an order and of what is put behind it are judged separately. */
  lemma SameSplit(t: Table, ops: map<nat, Operation>, more: map<nat, Operation>, told: map<nat, Answer>,
                  longer: map<nat, Answer>, a: seq<nat>, b: seq<nat>, state: Table, rows: bool)
    requires forall c <- a :: c in ops && c in more && more[c] == ops[c]
    requires forall c <- a :: c in told && c in longer && longer[c] == told[c]
    requires Leads(t, ops, a, |a|, state)
    ensures AllSame(longer, t, more, a + b, rows)
       <==> AllSame(told, t, ops, a, rows) && AllSame(longer, state, more, b, rows)
  {
    assert forall j :: 0 <= j < |a| ==> a[j] in a;
    ReplayAgree(t, ops, more, a, a, |a|);
    if AllSame(longer, t, more, a + b, rows) {
      forall p: nat | p < |a| ensures SameAt(told, t, ops, a, p, rows) {
        SameLater(t, ops, more, told, longer, a, b, p, rows);
      }
      forall k: nat | k < |b| ensures SameAt(longer, state, more, b, k, rows) {
        assert SameAt(longer, t, more, a + b, |a| + k, rows);
        SameBehind(t, more, longer, a, b, k, rows);
      }
    }
    if AllSame(told, t, ops, a, rows) && AllSame(longer, state, more, b, rows) {
      forall p: nat | p < |a + b| ensures SameAt(longer, t, more, a + b, p, rows) {
        if p < |a| {
          SameLater(t, ops, more, told, longer, a, b, p, rows);
        } else {
          SameBehind(t, more, longer, a, b, p - |a|, rows);
        }
      }
    }
  }

  lemma AnswersStep(t: Table, order: seq<nat>, told: map<nat, Answer>, w: World, s: Step, new': seq<nat>, next: World,
                    rows: bool)
    requires Inv(w) && IsStep(w, s, new', next) && Agrees(t, w, order) && Answered(w, told)
    ensures AllSame(ToldAfter(told, w, s), t, next.calls, order + new', rows)
       <==> AllSame(told, t, w.calls, order, rows) && Fair(w, s, new', told, rows)
  {
    var longer := ToldAfter(told, w, s);
    StepSame(w, s, told, rows);
    forall c | c in order
      ensures c in w.calls && c in next.calls && next.calls[c] == w.calls[c] && c in told && c in longer
              && longer[c] == told[c]
    {
      assert c in Effective(w);
    }
    SameSplit(t, w.calls, next.calls, told, longer, order, new', w.table, rows);
  }

  lemma LastAnswers(worlds: seq<World>, steps: seq<Step>, commits: seq<seq<nat>>, told: seq<map<nat, Answer>>, n: nat,
                    rows: bool)
    requires AnsweredRun(worlds, steps, commits, told) && n < |steps|
    ensures AllSame(told[n + 1], worlds[0].table, worlds[n + 1].calls, Order(commits, n + 1), rows)
       <==> && AllSame(told[n], worlds[0].table, worlds[n].calls, Order(commits, n), rows)
            && Fair(worlds[n], steps[n], commits[n], told[n], rows)
  {
    var w, s := worlds[n], steps[n];
    assert StepAt(worlds, steps, commits, n) && ToldAt(worlds, steps, told, n);
    RunKeepsInv(worlds, steps, commits, n);
    RunAnswered(worlds, steps, commits, told, n);
    OrderReplays(worlds, steps, commits, n);
    AnswersStep(worlds[0].table, Order(commits, n), told[n], w, s, commits[n], worlds[n + 1], rows);
  }

  /** Every call that has taken effect is told what the sequential order tells it exactly when every
      step of the run is fair.  With `rows` false this is about success, with `rows` true about the
      reported row as well. */
  lemma {:induction false} AnswersExact(worlds: seq<World>, steps: seq<Step>, commits: seq<seq<nat>>,
                                        told: seq<map<nat, Answer>>, n: nat, rows: bool)
    requires AnsweredRun(worlds, steps, commits, told) && n <= |steps|
    ensures AllSame(told[n], worlds[0].table, worlds[n].calls, Order(commits, n), rows)
       <==> forall i: nat :: i < n ==> Fair(worlds[i], steps[i], commits[i], told[i], rows)
  {
    if n > 0 {
      AnswersExact(worlds, steps, commits, told, n - 1, rows);
      LastAnswers(worlds, steps, commits, told, n - 1, rows);
    }
  }

  /** A step commits several calls exactly when it deletes a row that another pending unset has read. */
  lemma CommitsSeveral(worlds: seq<World>, steps: seq<Step>, commits: seq<seq<nat>>, i: nat)
    requires Run(worlds, steps, commits) && i < |steps|
    ensures |commits[i]| > 1
       <==> && steps[i].DeleteRow? && steps[i].call in worlds[i].pending
            && worlds[i].pending[steps[i].call].id in worlds[i].table
            && Readers(worlds[i], worlds[i].pending[steps[i].call].id, steps[i].call) != {}
  {
    assert StepAt(worlds, steps, commits, i);
    RunKeepsInv(worlds, steps, commits, i);
    if steps[i].DeleteRow? {
      DeleteCommits(worlds[i], steps[i].call);
    }
  }

  /** The success of every call is that of the order exactly when no step commits more than one call. */
  lemma SuccessExact(worlds: seq<World>, steps: seq<Step>, commits: seq<seq<nat>>, told: seq<map<nat, Answer>>, n: nat)
    requires AnsweredRun(worlds, steps, commits, told) && n <= |steps|
    ensures AllSame(told[n], worlds[0].table, worlds[n].calls, Order(commits, n), false)
       <==> forall i: nat :: i < n ==> |commits[i]| <= 1
  {
    AnswersExact(worlds, steps, commits, told, n, false);
    assert forall i: nat :: i < n ==> (Fair(worlds[i], steps[i], commits[i], told[i], false) <==> |commits[i]| <= 1);
  }

  // ------------------------------------------------- runs in which callers are told too much

  const KEY: Key := Key("like1", Proposal, "7")
  const LIKED: Table := map["1" := Row(KEY, ":like:")]
  const START: World := World(LIKED, {"1"}, map[], map[])

  lemma StartRuns()
    ensures Run([START], [], []) && Find(LIKED, KEY) == Some("1")
  {
    FindUnique(LIKED, KEY, "1");
  }

  lemma SadAllowed()
    ensures Allowed(Row(KEY, ":sad:"))
  {
    assert ":sad:"[1..4] == ['s', 'a', 'd'];
  }

  /** One reaction, and two calls that take it back: both read it, both delete it, both are told that
      they removed it.  The order tells the second that there was nothing. */
  lemma RacingRun() returns (worlds: seq<World>, steps: seq<Step>, commits: seq<seq<nat>>, told: seq<map<nat, Answer>>)
    ensures AnsweredRun(worlds, steps, commits, told) && worlds[0] == START
    ensures steps == [ReadRow(0, KEY), ReadRow(1, KEY), DeleteRow(0), DeleteRow(1)]
    ensures worlds[4].pending == map[] && !AllSame(told[4], LIKED, worlds[4].calls, Order(commits, 4), false)
  {
    StartRuns();
    var w1 := Next(START, ReadRow(0, KEY));
    var w2 := Next(w1, ReadRow(1, KEY));
    var w3 := Next(w2, DeleteRow(0));
    var w4 := Next(w3, DeleteRow(1));
    worlds, steps := [START, w1, w2, w3, w4], [ReadRow(0, KEY), ReadRow(1, KEY), DeleteRow(0), DeleteRow(1)];
    commits := [Committed(START, steps[0]), Committed(w1, steps[1]), Committed(w2, steps[2]), Committed(w3, steps[3])];
    assert forall i: nat :: i < |steps| ==> StepAt(worlds, steps, commits, i);
    told := RunHasAnswers(worlds, steps, commits, |steps|);
    assert 1 in Readers(w2, "1", 0);
    SuccessExact(worlds, steps, commits, told, 4);
    DeleteCommits(w2, 0);
    assert |commits[2]| > 1;
  }

  /** A reaction that is changed between being read and being deleted: the removal succeeds in the
      order as well, but the caller is shown the reaction that was there before. */
  lemma StaleRun() returns (worlds: seq<World>, steps: seq<Step>, commits: seq<seq<nat>>, told: seq<map<nat, Answer>>)
    ensures AnsweredRun(worlds, steps, commits, told) && worlds[0] == START
    ensures steps == [ReadRow(0, KEY), SetRow(1, KEY, ":sad:", "2"), DeleteRow(0)]
    ensures AllSame(told[3], LIKED, worlds[3].calls, Order(commits, 3), false)
    ensures !AllSame(told[3], LIKED, worlds[3].calls, Order(commits, 3), true)
  {
    StartRuns();
    SadAllowed();
    var w1 := Next(START, ReadRow(0, KEY));
    var w2 := Next(w1, SetRow(1, KEY, ":sad:", "2"));
    var w3 := Next(w2, DeleteRow(0));
    worlds, steps := [START, w1, w2, w3], [ReadRow(0, KEY), SetRow(1, KEY, ":sad:", "2"), DeleteRow(0)];
    commits := [Committed(START, steps[0]), Committed(w1, steps[1]), Committed(w2, steps[2])];
    assert forall i: nat :: i < |steps| ==> StepAt(worlds, steps, commits, i);
    told := RunHasAnswers(worlds, steps, commits, |steps|);
    assert Readers(w2, "1", 0) == {};
    DeleteCommits(w2, 0);
    SuccessExact(worlds, steps, commits, told, 3);
    AnswersExact(worlds, steps, commits, told, 3, true);
    assert w2.table["1"] == Row(KEY, ":sad:");
    assert ToldAt(worlds, steps, told, 0) && ToldAt(worlds, steps, told, 1);
    assert told[1] == ToldAfter(told[0], START, steps[0]) && told[2] == ToldAfter(told[1], w1, steps[1]);
    assert !Fair(w2, steps[2], commits[2], told[2], true);
  }
}
