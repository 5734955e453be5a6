/** Whether any sequential order of whole calls can explain what concurrent calls were told. */
module ReactionOrders {
  import opened Wrappers
  import opened ReactionTable
  import opened ReactionSchedule
  import opened ReactionAnswers

  /** After the first `p` calls of the order the table is that of world `at[p]`. */
  ghost predicate PassesAt(worlds: seq<World>, ops: map<nat, Operation>, order: seq<nat>, at: seq<nat>, n: nat, p: nat)
  {
    && p < |at| && p <= |order| && at[p] <= n < |worlds|
    && Replay(worlds[0].table, ops, order, p) == worlds[at[p]].table
  }

  /** Executing the calls one after the other goes through tables of the run only, forward. */
  ghost predicate Follows(worlds: seq<World>, ops: map<nat, Operation>, order: seq<nat>, at: seq<nat>, n: nat) {
    && |at| == |order| + 1
    && (forall p: nat :: p <= |order| ==> PassesAt(worlds, ops, order, at, n, p))
    && (forall p, q :: 0 <= p <= q < |at| ==> at[p] <= at[q])
  }

  /** An order with all calls that have taken effect, through the tables of the run, in which every call
      succeeds or fails as it was told. */
  ghost predicate Explains(worlds: seq<World>, told: seq<map<nat, Answer>>, n: nat, order: seq<nat>, at: seq<nat>)
    requires n < |worlds| && n < |told|
  {
    && Follows(worlds, worlds[n].calls, order, at, n)
    && (forall c :: c in Effective(worlds[n]) ==> c in order)
    && AllSame(told[n], worlds[0].table, worlds[n].calls, order, false)
  }

  // ------------------------------------------------- the order of the run

  /** The world the first `k` calls of the order of the run lead to. */
  ghost function WorldAt(commits: seq<seq<nat>>, n: nat, k: nat): (i: nat)
    requires n <= |commits|
    ensures i <= n
  {
    if n == 0 then 0 else if k <= |Order(commits, n - 1)| then WorldAt(commits, n - 1, k) else n
  }

  lemma {:induction false} WorldAtGrows(commits: seq<seq<nat>>, n: nat, k: nat, m: nat)
    requires n <= |commits| && k <= m
    ensures WorldAt(commits, n, k) <= WorldAt(commits, n, m)
  {
    if n > 0 {
      WorldAtGrows(commits, n - 1, k, m);
    }
  }

  lemma {:induction false} OrderPassesAt(worlds: seq<World>, steps: seq<Step>, commits: seq<seq<nat>>, n: nat, k: nat)
    requires Run(worlds, steps, commits) && n <= |steps| && k <= |Order(commits, n)|
    ensures Leads(worlds[0].table, worlds[n].calls, Order(commits, n), k, worlds[WorldAt(commits, n, k)].table)
  {
    if n > 0 {
      if k <= |Order(commits, n - 1)| {
        OrderPassesAt(worlds, steps, commits, n - 1, k);
        LeadsLater(worlds, steps, commits, n - 1, n, k, worlds[WorldAt(commits, n - 1, k)].table);
      } else {
        OrderReplays(worlds, steps, commits, n - 1);
        StepAgrees(worlds, steps, commits, n, k);
      }
    }
  }

  lemma OrderFollows(worlds: seq<World>, steps: seq<Step>, commits: seq<seq<nat>>, n: nat) returns (at: seq<nat>)
    requires Run(worlds, steps, commits) && n <= |steps|
    ensures Follows(worlds, worlds[n].calls, Order(commits, n), at, n)
  {
    var order := Order(commits, n);
    at := seq(|order| + 1, k requires 0 <= k <= |order| => WorldAt(commits, n, k));
    forall p: nat | p <= |order| ensures PassesAt(worlds, worlds[n].calls, order, at, n, p) {
      OrderPassesAt(worlds, steps, commits, n, p);
    }
    forall p, q | 0 <= p <= q < |at| ensures at[p] <= at[q] {
      WorldAtGrows(commits, n, p, q);
    }
  }

  // ------------------------------------------------- removed rows and successful removals

  /** The id of the row a step removes, if it removes one. */
  ghost function RowGone(w: World, s: Step): set<string> {
    if s.DeleteRow? && s.call in w.pending && w.pending[s.call].id in w.table then {w.pending[s.call].id} else {}
  }

  /** The ids of the rows removed in the first `n` steps. */
  ghost function Removed(worlds: seq<World>, steps: seq<Step>, n: nat): set<string>
    requires n <= |steps| < |worlds|
  {
    if n == 0 then {} else Removed(worlds, steps, n - 1) + RowGone(worlds[n - 1], steps[n - 1])
  }

  /** The removals that take effect by deleting, or by another call's deleting of their row. */
  ghost function Removers(steps: seq<Step>, commits: seq<seq<nat>>, n: nat): set<nat>
    requires n <= |steps| == |commits|
  {
    if n == 0 then {}
    else Removers(steps, commits, n - 1) + if steps[n - 1].DeleteRow? then CallsOf(commits[n - 1]) else {}
  }

  ghost function CallsOf(calls: seq<nat>): set<nat> {
    if calls == [] then {} else CallsOf(calls[..|calls| - 1]) + {calls[|calls| - 1]}
  }

  /** An id whose row is gone never comes back. */
  lemma {:induction false} GoneStays(worlds: seq<World>, steps: seq<Step>, commits: seq<seq<nat>>, m: nat, n: nat,
                                     id: string)
    requires Run(worlds, steps, commits) && m <= n <= |steps| && id in worlds[m].used && id !in worlds[m].table
    ensures id in worlds[n].used && id !in worlds[n].table
  {
    if m < n {
      GoneStays(worlds, steps, commits, m, n - 1, id);
      assert StepAt(worlds, steps, commits, n - 1);
    }
  }

  lemma {:induction false} UsedStays(worlds: seq<World>, steps: seq<Step>, commits: seq<seq<nat>>, m: nat, n: nat,
                                     id: string)
    requires Run(worlds, steps, commits) && m <= n <= |steps| && id in worlds[m].used
    ensures id in worlds[n].used
  {
    if m < n {
      UsedStays(worlds, steps, commits, m, n - 1, id);
      assert StepAt(worlds, steps, commits, n - 1);
    }
  }

  /** A step keeps every row but the one it removes. */
  lemma RowStays(w: World, s: Step, id: string)
    requires Enabled(w, s) && id in w.table && id !in Next(w, s).table
    ensures RowGone(w, s) == {id}
  {
  }

  lemma {:induction false} GoneIsRemoved(worlds: seq<World>, steps: seq<Step>, commits: seq<seq<nat>>, m: nat, n: nat,
                                         id: string)
    requires Run(worlds, steps, commits) && m <= n <= |steps| && id in worlds[m].table && id !in worlds[n].table
    ensures id in Removed(worlds, steps, n)
  {
    if m < n {
      if id !in worlds[n - 1].table {
        GoneIsRemoved(worlds, steps, commits, m, n - 1, id);
      } else {
        assert StepAt(worlds, steps, commits, n - 1);
        RowStays(worlds[n - 1], steps[n - 1], id);
      }
    }
  }

  lemma {:induction false} RemovedGrows(worlds: seq<World>, steps: seq<Step>, m: nat, n: nat)
    requires m <= n <= |steps| < |worlds|
    ensures Removed(worlds, steps, m) <= Removed(worlds, steps, n)
  {
    if m < n {
      RemovedGrows(worlds, steps, m, n - 1);
    }
  }

  lemma {:induction false} CallsOfMember(calls: seq<nat>, c: nat)
    ensures c in CallsOf(calls) <==> c in calls
  {
    if calls != [] {
      CallsOfMember(calls[..|calls| - 1], c);
      assert calls == calls[..|calls| - 1] + [calls[|calls| - 1]];
    }
  }

  lemma {:induction false} DistinctCalls(calls: seq<nat>)
    requires forall i, j :: 0 <= i < j < |calls| ==> calls[i] != calls[j]
    ensures |CallsOf(calls)| == |calls|
  {
    if calls != [] {
      var before, last := calls[..|calls| - 1], calls[|calls| - 1];
      DistinctCalls(before);
      CallsOfMember(before, last);
      assert last !in before;
    }
  }

  /** The removals a step adds are new ones. */
  lemma NewRemovers(w: World, s: Step, before: set<nat>)
    requires Inv(w) && Enabled(w, s) && before <= Effective(w)
    ensures var more := CallsOf(Committed(w, s));
            |before + more| == |before| + |Committed(w, s)| && before + more <= Effective(Next(w, s))
  {
    CommittedCalls(w, s);
    DistinctCalls(Committed(w, s));
    forall c ensures c in CallsOf(Committed(w, s)) <==> c in Committed(w, s) {
      CallsOfMember(Committed(w, s), c);
    }
    UnionSize(before, CallsOf(Committed(w, s)));
  }

  lemma UnionSize<T>(a: set<T>, b: set<T>)
    ensures |a + b| <= |a| + |b| && (a !! b ==> |a + b| == |a| + |b|)
  {
    assert |a + b| == |a| + |b| - |a * b|;
  }

  /** The steps that delete a row, each counted once. */
  ghost function Deletes(steps: seq<Step>, commits: seq<seq<nat>>, n: nat): nat
    requires n <= |steps| == |commits|
  {
    if n == 0 then 0
    else Deletes(steps, commits, n - 1) + if steps[n - 1].DeleteRow? && |commits[n - 1]| > 0 then 1 else 0
  }

  /** The calls such steps commit. */
  ghost function Deleters(steps: seq<Step>, commits: seq<seq<nat>>, n: nat): nat
    requires n <= |steps| == |commits|
  {
    if n == 0 then 0 else Deleters(steps, commits, n - 1) + if steps[n - 1].DeleteRow? then |commits[n - 1]| else 0
  }

  lemma {:induction false} RemovedCounted(worlds: seq<World>, steps: seq<Step>, commits: seq<seq<nat>>, n: nat)
    requires Run(worlds, steps, commits) && n <= |steps|
    ensures |Removed(worlds, steps, n)| <= Deletes(steps, commits, n)
  {
    if n > 0 {
      RemovedCounted(worlds, steps, commits, n - 1);
      assert StepAt(worlds, steps, commits, n - 1);
      UnionSize(Removed(worlds, steps, n - 1), RowGone(worlds[n - 1], steps[n - 1]));
    }
  }

  lemma RemoversAfter(worlds: seq<World>, steps: seq<Step>, commits: seq<seq<nat>>, n: nat)
    requires Run(worlds, steps, commits) && n < |steps| && steps[n].DeleteRow?
    requires Removers(steps, commits, n) <= Effective(worlds[n])
    ensures Removers(steps, commits, n + 1) <= Effective(worlds[n + 1])
    ensures |Removers(steps, commits, n + 1)| == |Removers(steps, commits, n)| + |commits[n]|
  {
    assert StepAt(worlds, steps, commits, n);
    RunKeepsInv(worlds, steps, commits, n);
    NewRemovers(worlds[n], steps[n], Removers(steps, commits, n));
  }

  lemma SameRemovers(worlds: seq<World>, steps: seq<Step>, commits: seq<seq<nat>>, n: nat)
    requires Run(worlds, steps, commits) && n < |steps| && !steps[n].DeleteRow?
    requires Removers(steps, commits, n) <= Effective(worlds[n])
    ensures Removers(steps, commits, n + 1) == Removers(steps, commits, n) <= Effective(worlds[n + 1])
  {
    assert StepAt(worlds, steps, commits, n);
    RunKeepsInv(worlds, steps, commits, n);
    CommittedCalls(worlds[n], steps[n]);
  }

  /** So far every removal was counted once, when it took effect. */
  ghost predicate AllCounted(worlds: seq<World>, steps: seq<Step>, commits: seq<seq<nat>>, n: nat)
    requires n <= |steps| == |commits| < |worlds|
  {
    && Removers(steps, commits, n) <= Effective(worlds[n])
    && |Removers(steps, commits, n)| == Deleters(steps, commits, n)
  }

  lemma CountedNext(worlds: seq<World>, steps: seq<Step>, commits: seq<seq<nat>>, n: nat)
    requires Run(worlds, steps, commits) && n < |steps| && AllCounted(worlds, steps, commits, n)
    ensures AllCounted(worlds, steps, commits, n + 1)
  {
    if steps[n].DeleteRow? {
      RemoversAfter(worlds, steps, commits, n);
      assert Deleters(steps, commits, n + 1) == Deleters(steps, commits, n) + |commits[n]|;
    } else {
      SameRemovers(worlds, steps, commits, n);
      assert Deleters(steps, commits, n + 1) == Deleters(steps, commits, n);
    }
  }

  lemma {:induction false} RemoversCounted(worlds: seq<World>, steps: seq<Step>, commits: seq<seq<nat>>, n: nat)
    requires Run(worlds, steps, commits) && n <= |steps|
    ensures AllCounted(worlds, steps, commits, n)
  {
    if n > 0 {
      RemoversCounted(worlds, steps, commits, n - 1);
      CountedNext(worlds, steps, commits, n - 1);
    }
  }

  /** Fewer rows are deleted than calls are committed by deleting as soon as a step commits several. */
  lemma {:induction false} MoreDeleters(worlds: seq<World>, steps: seq<Step>, commits: seq<seq<nat>>, n: nat, i: nat)
    requires Run(worlds, steps, commits) && n <= |steps|
    ensures Deletes(steps, commits, n) <= Deleters(steps, commits, n)
    ensures i < n && |commits[i]| > 1 ==> Deletes(steps, commits, n) < Deleters(steps, commits, n)
  {
    if n > 0 {
      MoreDeleters(worlds, steps, commits, n - 1, i);
      assert StepAt(worlds, steps, commits, n - 1);
    }
  }

  /** A removal that has taken effect by a delete was told of a row. */
  lemma {:induction false} RemoversTold(worlds: seq<World>, steps: seq<Step>, commits: seq<seq<nat>>,
                                        told: seq<map<nat, Answer>>, n: nat, c: nat)
    requires AnsweredRun(worlds, steps, commits, told) && n <= |steps| && c in Removers(steps, commits, n)
    ensures c in worlds[n].calls && worlds[n].calls[c].UnsetOp? && c in told[n] && told[n][c].Some?
  {
    if n > 0 {
      assert StepAt(worlds, steps, commits, n - 1) && ToldAt(worlds, steps, told, n - 1);
      RunAnswered(worlds, steps, commits, told, n - 1);
      if c in Removers(steps, commits, n - 1) {
        RemoversTold(worlds, steps, commits, told, n - 1, c);
      } else {
        RunKeepsInv(worlds, steps, commits, n - 1);
        CallsOfMember(commits[n - 1], c);
        DeleteCompletes(worlds[n - 1], steps[n - 1].call, c);
        DeleteCommits(worlds[n - 1], steps[n - 1].call);
      }
    }
  }

  // ------------------------------------------------- no order explains a step that commits several

  /** A place of the call in the order. */
  ghost function Place(order: seq<nat>, c: nat): (p: nat)
    requires c in order
    ensures p < |order| && order[p] == c
  {
    var p :| 0 <= p < |order| && order[p] == c;
    p
  }

  /** The id of the row the order has for a removal. */
  ghost function TakenId(t: Table, ops: map<nat, Operation>, order: seq<nat>, c: nat): string
    requires c in order && c in ops && ops[c].UnsetOp?
  {
    match Find(Replay(t, ops, order, Place(order, c)), ops[c].unsetKey) case Some(id) => id case None => ""
  }

  /** A removal that succeeds in the order takes a row away between two tables of the run. */
  lemma OrderTakes(worlds: seq<World>, told: seq<map<nat, Answer>>, n: nat, order: seq<nat>, at: seq<nat>, c: nat)
    requires n < |worlds| && n < |told| && Explains(worlds, told, n, order, at)
    requires c in order && c in worlds[n].calls && worlds[n].calls[c].UnsetOp? && c in told[n] && told[n][c].Some?
    ensures var p, id := Place(order, c), TakenId(worlds[0].table, worlds[n].calls, order, c);
            && p + 1 < |at| && at[p] <= at[p + 1] <= n
            && id in worlds[at[p]].table && id !in worlds[at[p + 1]].table
  {
    var p, ops := Place(order, c), worlds[n].calls;
    assert PassesAt(worlds, ops, order, at, n, p) && PassesAt(worlds, ops, order, at, n, p + 1);
    assert SameAt(told[n], worlds[0].table, ops, order, p, false);
    assert Replay(worlds[0].table, ops, order, p + 1) == Apply(Replay(worlds[0].table, ops, order, p), ops[c]);
  }

  /** Two places at which a row is taken away take different rows. */
  lemma TakenOnce(worlds: seq<World>, steps: seq<Step>, commits: seq<seq<nat>>, i: nat, j: nat, k: nat, id: string)
    requires Run(worlds, steps, commits) && i <= j <= k <= |steps| && id in worlds[i].table && id !in worlds[j].table
    ensures id !in worlds[k].table
  {
    RunKeepsInv(worlds, steps, commits, i);
    UsedStays(worlds, steps, commits, i, j, id);
    GoneStays(worlds, steps, commits, j, k, id);
  }

  lemma {:induction false} Injected(calls: set<nat>, ids: set<string>, idOf: map<nat, string>)
    requires forall c <- calls :: c in idOf && idOf[c] in ids
    requires forall c, d :: c in calls && d in calls && c != d ==> idOf[c] != idOf[d]
    ensures |calls| <= |ids|
  {
    if calls != {} {
      var c :| c in calls;
      Injected(calls - {c}, ids - {idOf[c]}, idOf);
    }
  }

  lemma TakenDiffer(worlds: seq<World>, steps: seq<Step>, commits: seq<seq<nat>>, told: seq<map<nat, Answer>>, n: nat,
                    order: seq<nat>, at: seq<nat>, c: nat, d: nat)
    requires AnsweredRun(worlds, steps, commits, told) && n <= |steps| && Explains(worlds, told, n, order, at)
    requires c in Removers(steps, commits, n) && d in Removers(steps, commits, n) && c in order && d in order && c != d
    requires c in worlds[n].calls && worlds[n].calls[c].UnsetOp? && d in worlds[n].calls && worlds[n].calls[d].UnsetOp?
    requires Place(order, c) < Place(order, d)
    ensures TakenId(worlds[0].table, worlds[n].calls, order, c) != TakenId(worlds[0].table, worlds[n].calls, order, d)
  {
    RemoversTold(worlds, steps, commits, told, n, c);
    RemoversTold(worlds, steps, commits, told, n, d);
    OrderTakes(worlds, told, n, order, at, c);
    OrderTakes(worlds, told, n, order, at, d);
    var p, q := Place(order, c), Place(order, d);
    TakenOnce(worlds, steps, commits, at[p], at[p + 1], at[q], TakenId(worlds[0].table, worlds[n].calls, order, c));
  }

  lemma RemoversExplained(worlds: seq<World>, steps: seq<Step>, commits: seq<seq<nat>>, told: seq<map<nat, Answer>>,
                          n: nat, order: seq<nat>, at: seq<nat>, c: nat)
    requires AnsweredRun(worlds, steps, commits, told) && n <= |steps| && Explains(worlds, told, n, order, at)
    requires c in Removers(steps, commits, n)
    ensures c in order && c in worlds[n].calls && worlds[n].calls[c].UnsetOp?
    ensures TakenId(worlds[0].table, worlds[n].calls, order, c) in Removed(worlds, steps, n)
  {
    RemoversCounted(worlds, steps, commits, n);
    RemoversTold(worlds, steps, commits, told, n, c);
    assert c in Effective(worlds[n]);
    OrderTakes(worlds, told, n, order, at, c);
    var p, id := Place(order, c), TakenId(worlds[0].table, worlds[n].calls, order, c);
    GoneIsRemoved(worlds, steps, commits, at[p], at[p + 1], id);
    RemovedGrows(worlds, steps, at[p + 1], n);
  }

  /** An order that explains the answers removes as many different rows as there are removals. */
  lemma ExplainedCount(worlds: seq<World>, steps: seq<Step>, commits: seq<seq<nat>>, told: seq<map<nat, Answer>>,
                       n: nat, order: seq<nat>, at: seq<nat>)
    requires AnsweredRun(worlds, steps, commits, told) && n <= |steps| && Explains(worlds, told, n, order, at)
    ensures |Removers(steps, commits, n)| <= |Removed(worlds, steps, n)|
  {
    var removers, ops := Removers(steps, commits, n), worlds[n].calls;
    forall c <- removers
      ensures c in order && c in ops && ops[c].UnsetOp?
              && TakenId(worlds[0].table, ops, order, c) in Removed(worlds, steps, n)
    {
      RemoversExplained(worlds, steps, commits, told, n, order, at, c);
    }
    var idOf := map c | c in removers :: TakenId(worlds[0].table, ops, order, c);
    forall c, d | c in removers && d in removers && c != d ensures idOf[c] != idOf[d] {
      if Place(order, c) < Place(order, d) {
        TakenDiffer(worlds, steps, commits, told, n, order, at, c, d);
      } else {
        TakenDiffer(worlds, steps, commits, told, n, order, at, d, c);
      }
    }
    Injected(removers, Removed(worlds, steps, n), idOf);
  }

  /** Some order of whole calls through the tables of the run explains who succeeded exactly when no step
      commits several calls; otherwise none does, the order of the run or any other. */
  lemma SomeOrderExplains(worlds: seq<World>, steps: seq<Step>, commits: seq<seq<nat>>, told: seq<map<nat, Answer>>,
                          n: nat)
    requires AnsweredRun(worlds, steps, commits, told) && n <= |steps|
    ensures (exists order, at :: Explains(worlds, told, n, order, at)) <==> forall i: nat :: i < n ==> |commits[i]| <= 1
  {
    if order, at :| Explains(worlds, told, n, order, at) {
      forall i: nat | i < n ensures |commits[i]| <= 1 {
        ExplainedCount(worlds, steps, commits, told, n, order, at);
        RemoversCounted(worlds, steps, commits, n);
        RemovedCounted(worlds, steps, commits, n);
        MoreDeleters(worlds, steps, commits, n, i);
      }
    }
    if forall i: nat :: i < n ==> |commits[i]| <= 1 {
      var at := OrderFollows(worlds, steps, commits, n);
      OrderReplays(worlds, steps, commits, n);
      SuccessExact(worlds, steps, commits, told, n);
      assert Explains(worlds, told, n, Order(commits, n), at);
    }
  }
}
