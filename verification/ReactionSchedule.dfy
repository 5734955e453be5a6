/** Concurrent calls.  Setting a reaction is one atomic statement; unsetting one reads the row and, in
    a later statement, deletes it by id.  Every interleaving goes through the states of the calls
    executed one after the other. */
module ReactionSchedule {
  import opened Wrappers
  import opened ReactionTable

  /** What a call was asked to do; a set carries the id its row gets if it is inserted. */
  datatype Operation = SetOp(key: Key, reaction: string, newId: string) | UnsetOp(unsetKey: Key)

  /** One statement of the call with the given number. */
  datatype Step =
    | SetRow(call: nat, key: Key, reaction: string, newId: string)
    | ReadRow(call: nat, key: Key)
    | DeleteRow(call: nat)

  /** An unset between its two statements: the id it read. */
  datatype Pending = Pending(key: Key, id: string)

  /** The table, the ids handed out so far, the calls started so far, and those between their statements. */
  datatype World = World(table: Table, used: set<string>, calls: map<nat, Operation>, pending: map<nat, Pending>)

  ghost predicate Enabled(w: World, s: Step) {
    match s
    case SetRow(call, _, _, newId) => call !in w.calls && newId !in w.used
    case ReadRow(call, _) => call !in w.calls
    case DeleteRow(call) => call in w.pending
  }

  ghost function Next(w: World, s: Step): World
    requires Enabled(w, s)
  {
    match s
    case SetRow(call, key, reaction, newId) =>
      World(Upsert(w.table, key, reaction, newId), w.used + {newId},
            w.calls[call := SetOp(key, reaction, newId)], w.pending)
    case ReadRow(call, key) =>
      var calls := w.calls[call := UnsetOp(key)];
      var found := Find(w.table, key);
      World(w.table, w.used, calls, if found.Some? then w.pending[call := Pending(key, found.value)] else w.pending)
    case DeleteRow(call) =>
      World(w.table - {w.pending[call].id}, w.used, w.calls, w.pending - {call})
  }

  // ------------------------------------------------- the invariant

  /** A pending unset remembers a row of its own key, unless the row is gone. */
  ghost predicate Remembers(w: World, call: nat)
    requires call in w.pending
  {
    var p := w.pending[call];
    && call in w.calls && w.calls[call] == UnsetOp(p.key)
    && p.id in w.used
    && (p.id in w.table ==> w.table[p.id].key == p.key)
  }

  ghost predicate Inv(w: World) {
    && Unique(w.table)
    && w.table.Keys <= w.used
    && forall c :: c in w.pending ==> Remembers(w, c)
  }

  /** A world with rows and no call yet. */
  ghost predicate Initial(w: World) {
    Unique(w.table) && w.table.Keys <= w.used && w.calls == map[] && w.pending == map[]
  }

  lemma NextKeepsInv(w: World, s: Step)
    requires Inv(w) && Enabled(w, s)
    ensures Inv(Next(w, s))
  {
  }

  // ------------------------------------------------- the sequential order

  ghost function Apply(t: Table, op: Operation): Table {
    match op
    case SetOp(key, reaction, newId) => Upsert(t, key, reaction, newId)
    case UnsetOp(key) => Unset(t, key)
  }

  /** The table after the first `k` calls of the order, executed whole; a number without a call does nothing. */
  ghost function Replay(t: Table, ops: map<nat, Operation>, order: seq<nat>, k: nat): Table
    requires k <= |order|
  {
    if k == 0 then t
    else
      var before, call := Replay(t, ops, order, k - 1), order[k - 1];
      if call in ops then Apply(before, ops[call]) else before
  }

  /** The first `k` calls of the order lead from one table to the other. */
  ghost predicate Leads(t: Table, ops: map<nat, Operation>, order: seq<nat>, k: nat, state: Table) {
    k <= |order| && Replay(t, ops, order, k) == state
  }

  /** An order of distinct calls that holds exactly those of the given set. */
  ghost predicate Enumerates(order: seq<nat>, calls: set<nat>) {
    && (forall c :: c in order <==> c in calls)
    && (forall i, j :: 0 <= i < j < |order| ==> order[i] != order[j])
  }

  /** The elements of a set, in some order. */
  ghost function Listed(s: set<nat>): seq<nat> {
    if s == {} then [] else var c :| c in s; [c] + Listed(s - {c})
  }

  lemma {:induction false} ListedOnce(s: set<nat>)
    ensures Enumerates(Listed(s), s)
  {
    if s != {} {
      var l := Listed(s);
      ListedOnce(s - {l[0]});
      assert l == [l[0]] + Listed(s - {l[0]});
    }
  }

  /** The other pending calls that read the row with this id. */
  ghost function Readers(w: World, id: string, call: nat): set<nat> {
    set c | c in w.pending && c != call && w.pending[c].id == id
  }

  /** The calls that take effect at a step.  Deleting a row also completes the unsets that read the same
      row and have not deleted it yet: from now on there is nothing for them to delete. */
  ghost function Committed(w: World, s: Step): seq<nat>
    requires Enabled(w, s)
  {
    match s
    case SetRow(call, _, _, _) => [call]
    case ReadRow(call, key) => if Find(w.table, key).None? then [call] else []
    case DeleteRow(call) =>
      var id := w.pending[call].id;
      if id in w.table then [call] + Listed(Readers(w, id, call)) else []
  }

  /** The step leads from one world to the next, and these calls take effect at it. */
  ghost predicate IsStep(w: World, s: Step, new': seq<nat>, next: World) {
    Enabled(w, s) && new' == Committed(w, s) && next == Next(w, s)
  }

  /** Step `i` leads from world `i` to the next one. */
  ghost predicate StepAt(worlds: seq<World>, steps: seq<Step>, commits: seq<seq<nat>>, i: nat) {
    i < |steps| && |worlds| == |steps| + 1 && |commits| == |steps|
        && IsStep(worlds[i], steps[i], commits[i], worlds[i + 1])
  }

  /** The worlds a run of steps goes through, and the calls that take effect at each step. */
  ghost predicate Run(worlds: seq<World>, steps: seq<Step>, commits: seq<seq<nat>>) {
    && |worlds| == |steps| + 1 && |commits| == |steps|
    && Initial(worlds[0])
    && forall i: nat :: i < |steps| ==> StepAt(worlds, steps, commits, i)
  }

  /** Nothing is left out: a run goes on with any step its last world allows. */
  lemma RunGoesOn(worlds: seq<World>, steps: seq<Step>, commits: seq<seq<nat>>, s: Step)
    requires Run(worlds, steps, commits) && Enabled(worlds[|steps|], s)
    ensures Run(worlds + [Next(worlds[|steps|], s)], steps + [s], commits + [Committed(worlds[|steps|], s)])
  {
    var w, z, c := worlds + [Next(worlds[|steps|], s)], steps + [s], commits + [Committed(worlds[|steps|], s)];
    forall i: nat | i < |z| ensures StepAt(w, z, c, i) {
      if i < |steps| {
        assert StepAt(worlds, steps, commits, i);
      }
    }
  }

  lemma {:induction false} RunKeepsInv(worlds: seq<World>, steps: seq<Step>, commits: seq<seq<nat>>, i: nat)
    requires Run(worlds, steps, commits) && i <= |steps|
    ensures Inv(worlds[i])
  {
    if i > 0 {
      RunKeepsInv(worlds, steps, commits, i - 1);
      assert StepAt(worlds, steps, commits, i - 1);
      NextKeepsInv(worlds[i - 1], steps[i - 1]);
    }
  }

  /** The order of the calls through the first `n` steps: each where it takes effect. */
  ghost function Order(commits: seq<seq<nat>>, n: nat): seq<nat>
    requires n <= |commits|
  {
    if n == 0 then [] else Order(commits, n - 1) + commits[n - 1]
  }

  /** The calls that have taken effect: all but the unsets whose row is still there to delete. */
  ghost function Effective(w: World): set<nat> {
    set c | c in w.calls && (c in w.pending ==> w.pending[c].id !in w.table)
  }

  // ------------------------------------------------- one step

  lemma CommittedCalls(w: World, s: Step)
    requires Inv(w) && Enabled(w, s)
    ensures Effective(w) <= Effective(Next(w, s))
    ensures forall c :: c in Committed(w, s) <==> c in Effective(Next(w, s)) && c !in Effective(w)
    ensures forall i, j :: 0 <= i < j < |Committed(w, s)| ==> Committed(w, s)[i] != Committed(w, s)[j]
  {
    if s.DeleteRow? {
      CommittedByDelete(w, s.call);
    } else if s.SetRow? {
      var t := Upsert(w.table, s.key, s.reaction, s.newId);
      assert w.table.Keys <= t.Keys <= w.table.Keys + {s.newId};
      assert Effective(Next(w, s)) == Effective(w) + {s.call};
    }
  }

  lemma CommittedByDelete(w: World, call: nat)
    requires Inv(w) && call in w.pending
    ensures var s := DeleteRow(call);
            && Effective(w) <= Effective(Next(w, s))
            && (forall c :: c in Committed(w, s) <==> c in Effective(Next(w, s)) && c !in Effective(w))
            && (forall i, j :: 0 <= i < j < |Committed(w, s)| ==> Committed(w, s)[i] != Committed(w, s)[j])
  {
    var id := w.pending[call].id;
    var w' := Next(w, DeleteRow(call));
    if id in w.table {
      var l := Listed(Readers(w, id, call));
      ListedOnce(Readers(w, id, call));
      assert call !in Readers(w, id, call);
      assert Committed(w, DeleteRow(call)) == [call] + l;
    } else {
      assert w'.table == w.table;
    }
  }

  /** Executing the committed calls whole, in their order, gives the table after the step; the first
      of them makes the whole difference. */
  lemma CommittedReplay(w: World, s: Step, k: nat)
    requires Inv(w) && Enabled(w, s) && k <= |Committed(w, s)|
    ensures Replay(w.table, Next(w, s).calls, Committed(w, s), k) == if k == 0 then w.table else Next(w, s).table
    ensures |Committed(w, s)| == 0 ==> Next(w, s).table == w.table
  {
    if s.DeleteRow? {
      DeleteReplay(w, s.call, k);
    } else if k == 1 {
      assert Replay(w.table, Next(w, s).calls, Committed(w, s), 0) == w.table;
    }
  }

  /** The calls a delete completes all unset the key of the deleted row. */
  lemma DeleteCompletes(w: World, call: nat, c: nat)
    requires Inv(w) && call in w.pending && c in Committed(w, DeleteRow(call))
    ensures w.pending[call].id in w.table && Find(w.table, w.pending[call].key) == Some(w.pending[call].id)
    ensures c in w.calls && w.calls[c] == UnsetOp(w.pending[call].key)
  {
    FindUnique(w.table, w.pending[call].key, w.pending[call].id);
    ListedOnce(Readers(w, w.pending[call].id, call));
    assert Remembers(w, c);
  }

  lemma {:induction false} DeleteReplay(w: World, call: nat, k: nat)
    requires Inv(w) && call in w.pending && k <= |Committed(w, DeleteRow(call))|
    ensures var order := Committed(w, DeleteRow(call));
            && Replay(w.table, w.calls, order, k) == (if k == 0 then w.table else w.table - {w.pending[call].id})
            && (|order| == 0 ==> w.table - {w.pending[call].id} == w.table)
  {
    var order, id, key := Committed(w, DeleteRow(call)), w.pending[call].id, w.pending[call].key;
    if k > 0 {
      DeleteReplay(w, call, k - 1);
      DeleteCompletes(w, call, order[k - 1]);
      var t := Replay(w.table, w.calls, order, k - 1);
      if k > 1 {
        assert t == w.table - {id} && Find(t, key).None?;
      }
      assert Unset(t, key) == w.table - {id};
    } else if id !in w.table {
      assert w.table - {id} == w.table;
    }
  }

  // ------------------------------------------------- whole runs

  /** Replay looks only at the calls it executes. */
  lemma {:induction false} ReplayAgree(t: Table, ops: map<nat, Operation>, more: map<nat, Operation>, a: seq<nat>,
                                       b: seq<nat>, k: nat)
    requires k <= |a| && k <= |b|
    requires forall j :: 0 <= j < k ==> a[j] == b[j] && a[j] in ops && a[j] in more && more[a[j]] == ops[a[j]]
    ensures Replay(t, ops, a, k) == Replay(t, more, b, k)
  {
    if k > 0 {
      ReplayAgree(t, ops, more, a, b, k - 1);
    }
  }

  lemma {:induction false} ReplayConcat(t: Table, ops: map<nat, Operation>, a: seq<nat>, b: seq<nat>, k: nat)
    requires (forall c <- a :: c in ops) && k <= |b|
    ensures Replay(t, ops, a + b, |a| + k) == Replay(Replay(t, ops, a, |a|), ops, b, k)
  {
    if k == 0 {
      ReplayAgree(t, ops, ops, a + b, a, |a|);
    } else {
      ReplayConcat(t, ops, a, b, k - 1);
    }
  }

  lemma OrderStep(order: seq<nat>, w: World, s: Step, new': seq<nat>, next: World)
    requires Inv(w) && IsStep(w, s, new', next) && Enumerates(order, Effective(w))
    ensures Enumerates(order + new', Effective(next))
  {
    CommittedCalls(w, s);
    assert forall c <- new' :: c !in order;
    forall i, j | 0 <= i < j < |order + new'| ensures (order + new')[i] != (order + new')[j] {
      if i < |order| <= j {
        assert new'[j - |order|] in new';
      }
    }
  }

  /** Some of what a step commits, behind an order that leads to the table before it, leads to the table after it. */
  lemma ReplayStep(t: Table, order: seq<nat>, w: World, s: Step, new': seq<nat>, next: World, k: nat)
    requires Inv(w) && IsStep(w, s, new', next) && k <= |new'|
    requires Enumerates(order, Effective(w)) && Leads(t, w.calls, order, |order|, w.table)
    ensures k > 0 || k == |new'| ==> Leads(t, next.calls, order + new', |order| + k, next.table)
  {
    assert forall j :: 0 <= j < |order| ==> order[j] in order;
    CommittedReplay(w, s, k);
    ReplayAgree(t, w.calls, next.calls, order, order, |order|);
    ReplayConcat(t, next.calls, order, new', k);
  }

  /** The order after some steps holds each call that has taken effect once, and leads to their table. */
  ghost predicate Agrees(t: Table, w: World, order: seq<nat>) {
    Enumerates(order, Effective(w)) && Leads(t, w.calls, order, |order|, w.table)
  }

  lemma StepAgrees(worlds: seq<World>, steps: seq<Step>, commits: seq<seq<nat>>, n: nat, k: nat)
    requires Run(worlds, steps, commits) && 0 < n <= |steps|
             && Agrees(worlds[0].table, worlds[n - 1], Order(commits, n - 1))
    requires |Order(commits, n - 1)| < k <= |Order(commits, n)| || k == |Order(commits, n)|
    ensures Enumerates(Order(commits, n), Effective(worlds[n]))
    ensures Leads(worlds[0].table, worlds[n].calls, Order(commits, n), k, worlds[n].table)
  {
    var early, w, s := Order(commits, n - 1), worlds[n - 1], steps[n - 1];
    RunKeepsInv(worlds, steps, commits, n - 1);
    assert StepAt(worlds, steps, commits, n - 1);
    OrderStep(early, w, s, commits[n - 1], worlds[n]);
    ReplayStep(worlds[0].table, early, w, s, commits[n - 1], worlds[n], k - |early|);
  }

  /** Executing the calls that have taken effect whole, one after the other, leads to the table of the run. */
  lemma {:induction false} OrderReplays(worlds: seq<World>, steps: seq<Step>, commits: seq<seq<nat>>, n: nat)
    requires Run(worlds, steps, commits) && n <= |steps|
    ensures Agrees(worlds[0].table, worlds[n], Order(commits, n))
  {
    if n == 0 {
      assert Effective(worlds[0]) == {};
    } else {
      OrderReplays(worlds, steps, commits, n - 1);
      StepAgrees(worlds, steps, commits, n, |Order(commits, n)|);
    }
  }

  lemma {:induction false} OrderGrows(commits: seq<seq<nat>>, m: nat, n: nat)
    requires m <= n <= |commits|
    ensures Order(commits, m) <= Order(commits, n)
  {
    if m < n {
      OrderGrows(commits, m, n - 1);
    }
  }

  /** No call is forgotten or changed. */
  lemma {:induction false} CallsGrow(worlds: seq<World>, steps: seq<Step>, commits: seq<seq<nat>>, m: nat, n: nat)
    requires Run(worlds, steps, commits) && m <= n <= |steps|
    ensures forall c :: c in worlds[m].calls ==> c in worlds[n].calls && worlds[n].calls[c] == worlds[m].calls[c]
  {
    if m < n {
      CallsGrow(worlds, steps, commits, m, n - 1);
      assert StepAt(worlds, steps, commits, n - 1);
    }
  }

  /** A call is over once it was started and is not between its statements. */
  ghost predicate Over(w: World, call: nat) { call in w.calls && call !in w.pending }

  /** Every interleaving is as if the calls had been executed whole, one at a time, in an order that
      keeps a call that was over before another was started in front of it; and the table always holds
      at most one row per address and target. */
  lemma Linearizable(worlds: seq<World>, steps: seq<Step>, commits: seq<seq<nat>>, n: nat, i: nat, a: nat, b: nat)
    requires Run(worlds, steps, commits) && i <= n <= |steps|
    ensures Unique(worlds[n].table)
    ensures var order := Order(commits, n);
            && Leads(worlds[0].table, worlds[n].calls, order, |order|, worlds[n].table)
            && (forall m, k :: 0 <= m < k < |order| ==> order[m] != order[k])
            && (forall c <- order :: c in worlds[n].calls)
            && (Over(worlds[n], a) ==> a in order)
            && (Over(worlds[i], a) && b !in worlds[i].calls && b in order
                ==> exists m, k :: 0 <= m < k < |order| && order[m] == a && order[k] == b)
  {
    RunKeepsInv(worlds, steps, commits, n);
    OrderReplays(worlds, steps, commits, n);
    OrderReplays(worlds, steps, commits, i);
    OrderGrows(commits, i, n);
    var order, early := Order(commits, n), Order(commits, i);
    if Over(worlds[i], a) && b !in worlds[i].calls && b in order {
      assert a in early && b !in early;
      var m :| 0 <= m < |early| && early[m] == a;
      var k :| 0 <= k < |order| && order[k] == b;
      assert order[m] == a;
    }
  }

  /** What the order leads to after some steps, it still leads to after more. */
  lemma LeadsLater(worlds: seq<World>, steps: seq<Step>, commits: seq<seq<nat>>, m: nat, n: nat, k: nat, state: Table)
    requires Run(worlds, steps, commits) && m <= n <= |steps|
    requires Leads(worlds[0].table, worlds[m].calls, Order(commits, m), k, state)
    ensures Leads(worlds[0].table, worlds[n].calls, Order(commits, n), k, state)
  {
    var early := Order(commits, m);
    OrderReplays(worlds, steps, commits, m);
    OrderGrows(commits, m, n);
    CallsGrow(worlds, steps, commits, m, n);
    assert forall j :: 0 <= j < |early| ==> early[j] in early;
    ReplayAgree(worlds[0].table, worlds[m].calls, worlds[n].calls, early, Order(commits, n), k);
  }

  /** Where the first `k` calls of the order lead: to the table of some world of the run. */
  lemma {:induction false} PrefixState(worlds: seq<World>, steps: seq<Step>, commits: seq<seq<nat>>, n: nat, k: nat)
    returns (i: nat)
    requires Run(worlds, steps, commits) && n <= |steps| && k <= |Order(commits, n)|
    ensures i <= n && Leads(worlds[0].table, worlds[n].calls, Order(commits, n), k, worlds[i].table)
  {
    if n == 0 {
      i := 0;
    } else if k <= |Order(commits, n - 1)| {
      i := PrefixState(worlds, steps, commits, n - 1, k);
      LeadsLater(worlds, steps, commits, n - 1, n, k, worlds[i].table);
    } else {
      i := n;
      OrderReplays(worlds, steps, commits, n - 1);
      StepAgrees(worlds, steps, commits, n, k);
    }
  }

  /** A prefix of the calls leads to the table. */
  ghost predicate OrderPasses(t: Table, calls: map<nat, Operation>, order: seq<nat>, state: Table) {
    exists k: nat :: Leads(t, calls, order, k, state)
  }

  ghost predicate RunPasses(worlds: seq<World>, state: Table) {
    exists i :: 0 <= i < |worlds| && worlds[i].table == state
  }

  /** The run and the sequence of whole calls go through the same tables: every table of the run is
      reached by a prefix of the calls, and every prefix of the calls reaches a table of the run. */
  lemma SameStates(worlds: seq<World>, steps: seq<Step>, commits: seq<seq<nat>>, state: Table)
    requires Run(worlds, steps, commits)
    ensures RunPasses(worlds, state)
       <==> OrderPasses(worlds[0].table, worlds[|steps|].calls, Order(commits, |steps|), state)
  {
    var order, calls := Order(commits, |steps|), worlds[|steps|].calls;
    if RunPasses(worlds, state) {
      var i :| 0 <= i < |worlds| && worlds[i].table == state;
      OrderReplays(worlds, steps, commits, i);
      LeadsLater(worlds, steps, commits, i, |steps|, |Order(commits, i)|, state);
    }
    if OrderPasses(worlds[0].table, calls, order, state) {
      var k: nat :| Leads(worlds[0].table, calls, order, k, state);
      var i := PrefixState(worlds, steps, commits, |steps|, k);
    }
  }

  // ------------------------------------------------- what the callers are told

  /** Only the tables agree: of two unsets that read the same row both report that they removed it,
      while of two whole calls one after the other the second finds nothing. */
  lemma RacingUnsets(w: World, a: nat, b: nat, key: Key)
    requires Inv(w) && a != b && a !in w.calls && b !in w.calls && Find(w.table, key).Some?
    ensures var w1 := Next(w, ReadRow(a, key));
            var w2 := Next(w1, ReadRow(b, key));
            && a in w2.pending && b in w2.pending
            && var w3 := Next(w2, DeleteRow(a));
            Enabled(w3, DeleteRow(b)) && Next(w3, DeleteRow(b)).table == Unset(w.table, key)
    ensures Find(Unset(w.table, key), key).None?
  {
  }
}
