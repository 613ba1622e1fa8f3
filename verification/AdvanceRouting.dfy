/** Late writes (backend/app/services/advance_service.py). */
module AdvanceRouting {
  // The cancellation of leavers' requests and the reassignment of approvers write over rows that may have moved on since
  // they were read. What every row keeps all the same is said in `AdvanceProtocol`. This module says exactly when a late
  // write leaves the current approver the stored person of the current step, and exactly when it closes a request a second
  // time; and it follows a run in which a person who was never asked decides a step.

  import opened Common
  import opened AdvanceWindow
  import opened AdvanceRules
  import opened AdvanceRequests
  import opened AdvanceProtocol
  import opened AdvanceDeciders

  // ---------- one late write ----------

  /** The approver after the write is the person of the step after the write: neither is written, or what is written
      agrees. */
  predicate Agree(c: Change, now: Request, step: Step) {
    var person := if PersonOf(c.next, step) != PersonOf(c.read, step) then PersonOf(c.next, step) else PersonOf(now, step);
    if c.next.approver == c.read.approver then person == PersonOf(now, step) else c.next.approver == Some(person)
  }

  /** The row is cancelled; or it is still at the step at which it was read; or, at a later step, approver and person
      agree; or it is out of review and no approver is written. */
  predicate SafeWrite(c: Change, now: Request) {
    || c.next.status != c.read.status
    || (if now.status.InReview? && now.stepIndex < |now.steps| then
          now.stepIndex == c.read.stepIndex || Agree(c, now, now.steps[now.stepIndex])
        else c.next.approver == c.read.approver)
  }

  /** A routed row stays routed under a write that was routed when it was read exactly when the write is safe. */
  lemma {:induction false} RoutedWrite(c: Change, now: Request)
    requires Invariant(now) && Follows(c, now) && Routed(now) && Routed(c.read)
    ensures Routed(Overwritten(c, now)) <==> SafeWrite(c, now)
  {
    hide Later, Count, LogStatus, OthersDecide, OthersIn, ClosedOnce, Rank;
    var n := Overwritten(c, now);
    if c.next.status != c.read.status {
      CancelledRow(c, now);
    } else {
      SameStep(c, now);
      assert n.status == now.status && n.steps == now.steps && n.stepIndex == now.stepIndex;
    }
  }

  /** A row that was read in review is still in review or has lost its approver; one that was read later has none. */
  lemma CancelledRow(c: Change, now: Request)
    requires Invariant(now) && Follows(c, now) && Routed(now) && Routed(c.read) && c.next.status != c.read.status
    ensures Overwritten(c, now).approver == None
  {
    hide Later, Count, LogStatus, OthersDecide, OthersIn, ClosedOnce, Rank;
  }

  lemma SameStep(c: Change, now: Request)
    requires Invariant(now) && Follows(c, now) && Routed(c.read) && c.next.status == c.read.status
    ensures c.read.status.InReview? && c.read.stepIndex < |c.read.steps|
    ensures var step := c.read.steps[c.read.stepIndex];
            && c.read.approver == Some(PersonOf(c.read, step)) && c.next.approver == Some(PersonOf(c.next, step))
  {
    hide Later, Count, LogStatus, OthersDecide, OthersIn, ClosedOnce, Rank;
    assert c.next.steps == c.read.steps && c.next.stepIndex == c.read.stepIndex;
  }

  // ---------- runs ----------

  ghost predicate AllRouted(table: Table) {
    forall id :: id in table ==> Routed(table[id])
  }

  ghost predicate PendingRouted(s: Portal) {
    forall t, id :: t in s.pending && id in s.pending[t] ==> Routed(s.pending[t][id].read)
  }

  predicate Safe(s: Portal, op: Op) {
    op.WriteRows? ==>
      forall id :: id in PendingOf(s, op.session) && id in s.table ==> SafeWrite(PendingOf(s, op.session)[id], s.table[id])
  }

  ghost predicate AllSafe(cfg: int -> Config, ops: seq<Op>) {
    forall i :: 0 <= i < |ops| ==> Safe(Run(cfg, ops[..i]), ops[i])
  }

  lemma {:induction false} RoutedStep(cfg: int -> Config, s: Portal, op: Op)
    requires SystemOk(cfg, s) && AllRouted(s.table) && PendingRouted(s)
    ensures AllRouted(After(cfg, s, op).table) <==> Safe(s, op)
  {
    hide CountsOk, Invariant, EnterStep, Draft, Follows, Overwritten, OpenOf, CountedOf, SafeWrite, Routed;
    if op.Insert? {
      InsertRouted(cfg, s, op);
    } else if op.WriteRows? {
      var changes := PendingOf(s, op.session);
      forall id | id in changes
        ensures id in s.table && (Routed(Overwritten(changes[id], s.table[id])) <==> SafeWrite(changes[id], s.table[id]))
      {
        RoutedWrite(changes[id], s.table[id]);
      }
      WrittenRouted(cfg, s, op);
    } else if IsSubmission(op) || op.ReadRows? {
      SameTable(cfg, s, op);
    } else {
      forall id | id in s.table
        ensures Routed(Next(op, id, s.table[id]))
      {
        NextRouted(op, id, s.table[id]);
      }
    }
  }

  lemma SameTable(cfg: int -> Config, s: Portal, op: Op)
    requires (IsSubmission(op) && !op.Insert?) || op.ReadRows?
    ensures After(cfg, s, op).table == s.table
  {
    hide OpenOf, CountedOf;
  }

  lemma WrittenRouted(cfg: int -> Config, s: Portal, op: Op)
    requires op.WriteRows? && AllRouted(s.table)
    requires var changes := PendingOf(s, op.session);
             forall id :: id in changes ==>
               id in s.table && (Routed(Overwritten(changes[id], s.table[id])) <==> SafeWrite(changes[id], s.table[id]))
    ensures AllRouted(After(cfg, s, op).table) <==> Safe(s, op)
  {
    hide Routed, Overwritten, SafeWrite, PendingOf;
    var changes := PendingOf(s, op.session);
    var n := After(cfg, s, op).table;
    assert n == WrittenTable(changes, s.table);
    assert forall id :: id in changes ==> n[id] == Overwritten(changes[id], s.table[id]);
  }

  lemma NextRouted(op: Op, id: nat, r: Request)
    requires Invariant(r) && Routed(r)
    ensures Routed(Next(op, id, r))
  {
    hide Invariant, Attempt, Routed, Later;
    if Attempt(op, id, r).Some? {
      AttemptLater(op, id, r);
    }
  }

  lemma InsertRouted(cfg: int -> Config, s: Portal, op: Op)
    requires op.Insert? && AllRouted(s.table)
    ensures AllRouted(After(cfg, s, op).table)
  {
    hide EnterStep, Draft, Routed, Invariant, ClosedOnce, OpenOf, CountedOf;
    var p := PhaseOf(s, op.session);
    if p.Clear? {
      var c := cfg(p.employee);
      SubmittedInvariant(op.w, op.site, p.employee, op.amount, p.today, RequestMonth(p.today, c.from, c.to), op.unit, op.manager);
    }
  }

  lemma {:induction false} PendingRoutedStep(cfg: int -> Config, s: Portal, op: Op)
    requires AllRouted(s.table) && PendingRouted(s)
    ensures PendingRouted(After(cfg, s, op))
  {
    hide Routed, Attempt;
    var n := After(cfg, s, op);
    forall t, id | t in n.pending && id in n.pending[t]
      ensures Routed(n.pending[t][id].read)
    {
      if !(t in s.pending && n.pending[t] == s.pending[t]) {
        NewlyRead(cfg, s, op, t);
      }
    }
  }

  lemma {:induction false} SafeFront(cfg: int -> Config, ops: seq<Op>, n: nat)
    requires AllSafe(cfg, ops) && n <= |ops|
    ensures AllSafe(cfg, ops[..n])
    ensures n < |ops| ==> Safe(Run(cfg, ops[..n]), ops[n])
  {
    hide Run, Safe;
    forall i | 0 <= i < n
      ensures Safe(Run(cfg, ops[..n][..i]), ops[..n][i])
    {
      assert ops[..n][..i] == ops[..i];
    }
  }

  lemma {:induction false} RoutedRun(cfg: int -> Config, ops: seq<Op>)
    requires AllSafe(cfg, ops)
    ensures AllRouted(Run(cfg, ops).table) && PendingRouted(Run(cfg, ops))
  {
    hide After, AllSafe, Safe, AllRouted, PendingRouted, SystemOk;
    if ops == [] {
      NothingRouted();
    } else {
      var front := ops[..|ops| - 1];
      SafeFront(cfg, ops, |ops| - 1);
      RoutedRun(cfg, front);
      RunOk(cfg, front);
      RoutedStep(cfg, Run(cfg, front), ops[|ops| - 1]);
      PendingRoutedStep(cfg, Run(cfg, front), ops[|ops| - 1]);
    }
  }

  lemma NothingRouted()
    ensures AllRouted(EMPTY.table) && PendingRouted(EMPTY)
  {
  }

  lemma {:induction false} FirstUnsafe(cfg: int -> Config, ops: seq<Op>) returns (i: nat)
    requires !AllSafe(cfg, ops)
    ensures i < |ops| && !Safe(Run(cfg, ops[..i]), ops[i]) && AllSafe(cfg, ops[..i])
  {
    hide Run, Safe;
    var k :| 0 <= k < |ops| && !Safe(Run(cfg, ops[..k]), ops[k]);
    if AllSafe(cfg, ops[..k]) {
      i := k;
    } else {
      i := FirstUnsafe(cfg, ops[..k]);
      assert ops[..k][..i] == ops[..i];
    }
  }

  /** Over a run: at every moment every request is with the stored person of its current step, if it is in review, and with
      nobody otherwise, if and only if every late write is safe. */
  lemma {:induction false} RoutedExactly(cfg: int -> Config, ops: seq<Op>)
    ensures (forall n :: 0 <= n <= |ops| ==> AllRouted(Run(cfg, ops[..n]).table)) <==> AllSafe(cfg, ops)
  {
    hide Run, After, AllRouted, PendingRouted, AllSafe, Safe, SystemOk;
    if AllSafe(cfg, ops) {
      forall n | 0 <= n <= |ops|
        ensures AllRouted(Run(cfg, ops[..n]).table)
      {
        SafeFront(cfg, ops, n);
        RoutedRun(cfg, ops[..n]);
      }
    } else {
      var i := FirstUnsafe(cfg, ops);
      RoutedRun(cfg, ops[..i]);
      RunOk(cfg, ops[..i]);
      RoutedStep(cfg, Run(cfg, ops[..i]), ops[i]);
      LastOp(cfg, ops, i);
    }
  }

  // ---------- closed twice ----------

  ghost predicate AllClosedOnce(table: Table) {
    forall id :: id in table ==> ClosedOnce(table[id])
  }

  /** A cancellation is written over a request that is closed already. */
  predicate ClosesAgain(s: Portal, op: Op) {
    exists id :: id in s.table && AboutToCancel(s, op, id) && IsFinal(s.table[id].status)
  }

  ghost predicate NeverAgain(cfg: int -> Config, ops: seq<Op>) {
    forall i :: 0 <= i < |ops| ==> !ClosesAgain(Run(cfg, ops[..i]), ops[i])
  }

  lemma {:induction false} ClosedWrite(c: Change, now: Request)
    requires Invariant(now) && Follows(c, now) && ClosedOnce(now)
    ensures ClosedOnce(Overwritten(c, now)) <==> !(c.next.status != c.read.status && IsFinal(now.status))
  {
    hide Later, Count, Routed, OthersDecide, OthersIn;
    if c.next.status == c.read.status {
      LogChanged(now.log, now.employee);
      assert NewEvents(c) == [] ==> Overwritten(c, now).log == now.log;
    } else {
      CountSnoc(now.log, Entry(CancelledBy, System));
    }
  }

  lemma {:induction false} ClosedStep(cfg: int -> Config, s: Portal, op: Op)
    requires SystemOk(cfg, s) && AllClosedOnce(s.table)
    ensures AllClosedOnce(After(cfg, s, op).table) <==> !ClosesAgain(s, op)
  {
    hide CountsOk, Invariant, EnterStep, Draft, Follows, Overwritten, OpenOf, CountedOf, ClosedOnce;
    if op.Insert? {
      InsertClosed(cfg, s, op);
    } else if op.WriteRows? {
      var changes := PendingOf(s, op.session);
      forall id | id in changes
        ensures id in s.table
        ensures ClosedOnce(Overwritten(changes[id], s.table[id])) <==> !(AboutToCancel(s, op, id) && IsFinal(s.table[id].status))
      {
        ClosedWrite(changes[id], s.table[id]);
      }
      WrittenClosed(cfg, s, op);
    } else if IsSubmission(op) || op.ReadRows? {
      SameTable(cfg, s, op);
    } else {
      forall id | id in s.table
        ensures ClosedOnce(Next(op, id, s.table[id]))
      {
        NextClosed(op, id, s.table[id]);
      }
    }
  }

  lemma WrittenClosed(cfg: int -> Config, s: Portal, op: Op)
    requires op.WriteRows? && AllClosedOnce(s.table)
    requires var changes := PendingOf(s, op.session);
             forall id :: id in changes ==>
               id in s.table
               && (ClosedOnce(Overwritten(changes[id], s.table[id])) <==>
                     !(AboutToCancel(s, op, id) && IsFinal(s.table[id].status)))
    ensures AllClosedOnce(After(cfg, s, op).table) <==> !ClosesAgain(s, op)
  {
    hide ClosedOnce, Overwritten, PendingOf;
    var changes := PendingOf(s, op.session);
    var n := After(cfg, s, op).table;
    assert n == WrittenTable(changes, s.table);
    assert forall id :: id in changes ==> n[id] == Overwritten(changes[id], s.table[id]);
    assert forall id :: AboutToCancel(s, op, id) ==> id in changes;
  }

  lemma NextClosed(op: Op, id: nat, r: Request)
    requires Invariant(r) && ClosedOnce(r)
    ensures ClosedOnce(Next(op, id, r))
  {
    hide Invariant, Attempt, Routed, Later, ClosedOnce;
    if Attempt(op, id, r).Some? {
      AttemptLater(op, id, r);
    }
  }

  lemma InsertClosed(cfg: int -> Config, s: Portal, op: Op)
    requires op.Insert? && AllClosedOnce(s.table)
    ensures AllClosedOnce(After(cfg, s, op).table)
  {
    hide EnterStep, Draft, Routed, Invariant, ClosedOnce, OpenOf, CountedOf;
    var p := PhaseOf(s, op.session);
    if p.Clear? {
      var c := cfg(p.employee);
      SubmittedInvariant(op.w, op.site, p.employee, op.amount, p.today, RequestMonth(p.today, c.from, c.to), op.unit, op.manager);
    }
  }

  lemma {:induction false} AgainFront(cfg: int -> Config, ops: seq<Op>, n: nat)
    requires NeverAgain(cfg, ops) && n <= |ops|
    ensures NeverAgain(cfg, ops[..n])
    ensures n < |ops| ==> !ClosesAgain(Run(cfg, ops[..n]), ops[n])
  {
    hide Run, ClosesAgain;
    forall i | 0 <= i < n
      ensures !ClosesAgain(Run(cfg, ops[..n][..i]), ops[..n][i])
    {
      assert ops[..n][..i] == ops[..i];
    }
  }

  lemma {:induction false} ClosedRun(cfg: int -> Config, ops: seq<Op>)
    requires NeverAgain(cfg, ops)
    ensures AllClosedOnce(Run(cfg, ops).table)
  {
    hide After, NeverAgain, ClosesAgain, AllClosedOnce, SystemOk;
    if ops == [] {
      assert AllClosedOnce(EMPTY.table) by { NothingClosed(); }
    } else {
      var front := ops[..|ops| - 1];
      AgainFront(cfg, ops, |ops| - 1);
      ClosedRun(cfg, front);
      RunOk(cfg, front);
      ClosedStep(cfg, Run(cfg, front), ops[|ops| - 1]);
    }
  }

  lemma NothingClosed()
    ensures AllClosedOnce(EMPTY.table)
  {
  }

  lemma {:induction false} FirstAgain(cfg: int -> Config, ops: seq<Op>) returns (i: nat)
    requires !NeverAgain(cfg, ops)
    ensures i < |ops| && ClosesAgain(Run(cfg, ops[..i]), ops[i]) && NeverAgain(cfg, ops[..i])
  {
    hide Run, ClosesAgain;
    var k :| 0 <= k < |ops| && ClosesAgain(Run(cfg, ops[..k]), ops[k]);
    if NeverAgain(cfg, ops[..k]) {
      i := k;
    } else {
      i := FirstAgain(cfg, ops[..k]);
      assert ops[..k][..i] == ops[..i];
    }
  }

  /** Over a run: at every moment every request has been rejected, paid or cancelled at most once, all together, if and only
      if no late cancellation is written over a closed request. */
  lemma {:induction false} ClosedExactly(cfg: int -> Config, ops: seq<Op>)
    ensures (forall n :: 0 <= n <= |ops| ==> AllClosedOnce(Run(cfg, ops[..n]).table)) <==> NeverAgain(cfg, ops)
  {
    hide Run, After, AllClosedOnce, NeverAgain, ClosesAgain, SystemOk;
    if NeverAgain(cfg, ops) {
      forall n | 0 <= n <= |ops|
        ensures AllClosedOnce(Run(cfg, ops[..n]).table)
      {
        AgainFront(cfg, ops, n);
        ClosedRun(cfg, ops[..n]);
      }
    } else {
      var i := FirstAgain(cfg, ops);
      ClosedRun(cfg, ops[..i]);
      RunOk(cfg, ops[..i]);
      ClosedStep(cfg, Run(cfg, ops[..i]), ops[i]);
      LastOp(cfg, ops, i);
    }
  }

  // ---------- writes in time ----------

  /** A write over rows that have not changed since they were read is safe and closes nothing twice. */
  lemma {:induction false} TimelyEnough(cfg: int -> Config, ops: seq<Op>)
    requires AllTimely(cfg, ops)
    ensures AllSafe(cfg, ops) && NeverAgain(cfg, ops)
  {
    hide Run, Timely, Safe, ClosesAgain, SystemOk;
    forall i | 0 <= i < |ops|
      ensures Safe(Run(cfg, ops[..i]), ops[i]) && !ClosesAgain(Run(cfg, ops[..i]), ops[i])
    {
      RunOk(cfg, ops[..i]);
      TimelySafe(cfg, Run(cfg, ops[..i]), ops[i]);
    }
  }

  lemma TimelySafe(cfg: int -> Config, s: Portal, op: Op)
    requires SystemOk(cfg, s) && Timely(s, op)
    ensures Safe(s, op) && !ClosesAgain(s, op)
  {
    hide CountsOk, RowsOk, Agree, Overwritten, Later, Routed, ClosedOnce, Count, LogStatus, OthersDecide, OthersIn, Rank;
    if op.WriteRows? {
      forall id | id in PendingOf(s, op.session)
        ensures id in s.table && SafeWrite(PendingOf(s, op.session)[id], s.table[id])
        ensures AboutToCancel(s, op, id) ==> !IsFinal(s.table[id].status)
      {
        var c := PendingOf(s, op.session)[id];
        assert Careful(c) && Invariant(c.read);
      }
    }
  }

  lemma {:induction false} TimelyStep(cfg: int -> Config, s: Portal, op: Op, id: nat)
    requires SystemOk(cfg, s) && Timely(s, op) && id in s.table
    ensures id in After(cfg, s, op).table && Later(s.table[id], After(cfg, s, op).table[id])
  {
    hide CountsOk, Invariant, EnterStep, Draft, OpenOf, CountedOf, Next, Later, Overwritten, RowsOk, Careful, Routed;
    LaterReflexive(s.table[id]);
    if op.WriteRows? {
      if id in PendingOf(s, op.session) {
        assert ChangeOk(PendingOf(s, op.session)[id]);
      }
    } else if IsSubmission(op) {
      SubmissionRows(cfg, s, op);
    } else if !op.ReadRows? {
      RowsLater(op, s.table);
    }
  }

  /** In a run in which no unlocked call writes over a changed row, a closed request moreover stays as it is. */
  lemma {:induction false} TimelyHistory(cfg: int -> Config, ops: seq<Op>, i: nat, id: nat)
    requires AllTimely(cfg, ops) && i <= |ops| && id in Run(cfg, ops[..i]).table
    ensures id in Run(cfg, ops).table
    ensures Later(Run(cfg, ops[..i]).table[id], Run(cfg, ops).table[id])
    decreases |ops|
  {
    hide SystemOk, After, Later, Timely;
    if i == |ops| {
      assert ops[..i] == ops;
      LaterReflexive(Run(cfg, ops).table[id]);
    } else {
      var m := |ops| - 1;
      var front := ops[..m];
      assert forall k :: 0 <= k <= m ==> front[..k] == ops[..k];
      TimelyHistory(cfg, front, i, id);
      RunOk(cfg, front);
      TimelyStep(cfg, Run(cfg, front), ops[m], id);
      LaterTransitive(Run(cfg, ops[..i]).table[id], Run(cfg, front).table[id], Run(cfg, ops).table[id]);
    }
  }

  // ---------- a step decided by a person who was never asked for it ----------

  /** The leave chain now names 3 as the unit manager; nothing else changes. */
  function Handover(): World {
    World((site: int) => Some(2), (person: int) => true, (requester: int) => Some(3), (site: int, person: int) => None)
  }

  function NewManager(): Op {
    ReassignAll(Handover(), None, {}, true)
  }

  /** The row after the first approval. */
  function FirstApproved(r: Request): Request {
    r.(stepIndex := 1, approver := Some(2), log := r.log + [Entry(ApprovedBy, Person(1))])
  }

  lemma {:induction false} HandedOver(r: Request)
    requires r == FirstRow(1, 2)
    ensures Attempt(NewManager(), 1, r)
         == Some(r.(unitManager := 3, approver := Some(3), log := r.log + [Entry(ApproverChanged, System)]))
  {
    FirstReview();
    hide FirstRow;
    var w := Handover();
    ReassignPersons(w, r, true, true);
    ReassignChanges(w, r, true, true);
    ReassignLeaves(w, r, true);
    ReassignFollows(w, r, true);
    hide ReassignOne;
  }

  lemma {:induction false} OrdinaryApproval(r: Request)
    requires r == FirstRow(1, 2)
    ensures Attempt(ApproverBatch(Answers(2), 1, {1}, true), 1, r) == Some(FirstApproved(r))
  {
    FirstReview();
    hide FirstRow;
  }

  lemma {:induction false} StrangerApproves(r: Request)
    requires TwoManagers(r) && r.stepIndex == 1 && r.status == InReview && r.approver == Some(3)
    ensures Attempt(ApproverBatch(Answers(2), 3, {1}, true), 1, r)
         == Some(r.(stepIndex := 2, status := WaitingFinance, approver := None, log := r.log + [Entry(ApprovedBy, Person(3))]))
  {
  }

  function Handed(r: Request): Change {
    Change(r, Next(NewManager(), 1, r))
  }

  /** From the row on: it is read for the handover, */
  lemma {:induction false} HandoverRead(start: seq<Op>, r: Request)
    requires r == FirstRow(1, 2) && Run(Plain(), start) == Portal(map[1 := r], map[], map[0 := Idle], map[])
    ensures Run(Plain(), start + [ReadRows(7, NewManager())])
         == Portal(map[1 := r], map[], map[0 := Idle], map[7 := map[1 := Handed(r)]])
  {
    HandedOver(r);
    hide Run, FirstRow, Attempt;
    RunSnoc(Plain(), start, ReadRows(7, NewManager()));
    assert ChangesOf(NewManager(), map[1 := r]) == map[1 := Handed(r)];
  }

  /** approved, */
  lemma {:induction false} HandoverApproved(before: seq<Op>, r: Request, pending: map<int, map<nat, Change>>)
    requires r == FirstRow(1, 2) && Run(Plain(), before) == Portal(map[1 := r], map[], map[0 := Idle], pending)
    ensures Run(Plain(), before + [ApproverBatch(Answers(2), 1, {1}, true)])
         == Portal(map[1 := FirstApproved(r)], map[], map[0 := Idle], pending)
  {
    OrdinaryApproval(r);
    hide Run, FirstRow, Attempt, Answers, FirstApproved;
    var decide := ApproverBatch(Answers(2), 1, {1}, true);
    RunSnoc(Plain(), before, decide);
    assert NextTable(decide, map[1 := r]) == map[1 := FirstApproved(r)];
  }

  /** and written. */
  lemma {:induction false} HandoverRun(start: seq<Op>, r: Request)
    requires r == FirstRow(1, 2) && Run(Plain(), start) == Portal(map[1 := r], map[], map[0 := Idle], map[])
    ensures Run(Plain(), start + [ReadRows(7, NewManager())] + [ApproverBatch(Answers(2), 1, {1}, true)] + [WriteRows(7)])
         == Portal(map[1 := FirstApproved(r).(unitManager := 3, approver := Some(3),
                                          log := FirstApproved(r).log + [Entry(ApproverChanged, System)])],
                   map[], map[0 := Idle], map[])
  {
    HandoverRead(start, r);
    HandoverApproved(start + [ReadRows(7, NewManager())], r, map[7 := map[1 := Handed(r)]]);
    HandedOver(r);
    FirstReview();
    hide Run, FirstRow, Attempt, NewManager, Answers;
    var ops := start + [ReadRows(7, NewManager())] + [ApproverBatch(Answers(2), 1, {1}, true)];
    RunSnoc(Plain(), ops, WriteRows(7));
    WriteAlone(Run(Plain(), ops), Handed(r), FirstApproved(r));
  }

  lemma WriteAlone(s: Portal, c: Change, r: Request)
    requires s == Portal(map[1 := r], map[], map[0 := Idle], map[7 := map[1 := c]])
    requires c.next.log == c.read.log + [Entry(ApproverChanged, System)]
    requires c.next.unitManager == 3 != c.read.unitManager && c.next.siteManager == c.read.siteManager
    requires c.next.approver == Some(3) != c.read.approver && c.next.status == c.read.status
    ensures After(Plain(), s, WriteRows(7))
         == Portal(map[1 := r.(unitManager := 3, approver := Some(3), log := r.log + [Entry(ApproverChanged, System)])],
                   map[], map[0 := Idle], map[])
  {
    assert PendingOf(s, 7) == map[1 := c];
    assert NewEvents(c) == [Entry(ApproverChanged, System)];
    assert WrittenTable(map[1 := c], s.table)
        == map[1 := r.(unitManager := 3, approver := Some(3), log := r.log + [Entry(ApproverChanged, System)])];
    assert s.pending - {7} == map[];
  }

  /** A run in which a person who was never asked for it decides the site manager's step. A reassignment reads the request
      while its unit manager 1 is to decide and finds 3 as the unit manager of today; 1 approves, and the request goes on to
      site manager 2; then the reassignment writes 3 as unit manager and as current approver, and 3 approves. */
  lemma {:induction false} Misrouted() returns (late: seq<Op>, ops: seq<Op>)
    ensures late < ops && 1 in Run(Plain(), late).table && 1 in Run(Plain(), ops).table
    ensures var r := Run(Plain(), late).table[1];
            && TwoManagers(r) && r.status == InReview && r.stepIndex == 1
            && r.siteManager == 2 && r.approver == Some(3) && !Routed(r)
    ensures var r := Run(Plain(), ops).table[1];
            && r.status == WaitingFinance && r.siteManager == 2
            && r.log == [Entry(SubmittedBy, Person(9)), Entry(ApprovedBy, Person(1)), Entry(ApproverChanged, System),
                         Entry(ApprovedBy, Person(3))]
  {
    hide Run, FirstRow, Answers, NewManager, Attempt;
    var start, r0 := Submission(1, 2), FirstRow(1, 2);
    var decide := ApproverBatch(Answers(2), 3, {1}, true);
    FirstReview();
    Submitted(1, 2);
    HandoverRun(start, r0);
    late := start + [ReadRows(7, NewManager())] + [ApproverBatch(Answers(2), 1, {1}, true)] + [WriteRows(7)];
    var r1 := FirstApproved(r0).(unitManager := 3, approver := Some(3), log := FirstApproved(r0).log + [Entry(ApproverChanged, System)]);
    StrangerApproves(r1);
    OneRowAfter(late, decide, r1, Attempt(decide, 1, r1).value);
    ops := late + [decide];
    assert r1.log + [Entry(ApprovedBy, Person(3))]
        == [Entry(SubmittedBy, Person(9)), Entry(ApprovedBy, Person(1)), Entry(ApproverChanged, System),
            Entry(ApprovedBy, Person(3))];
  }
}
