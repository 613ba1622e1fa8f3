/** When two managers are one person (backend/app/services/advance_service.py). */
module AdvanceDeciders {
  // The route of a request asks one manager in both roles only once. Later answers of the settings and of the leave
  // chain can bring both steps to one person all the same. This module says exactly when, for one operation and over
  // runs, and follows two runs step by step: one person who decides twice, and a payment that is overwritten by a
  // cancellation.

  import opened Common
  import opened JalaliCalendar
  import opened Months
  import opened AdvanceWindow
  import opened AdvanceRules
  import opened AdvanceRequests
  import opened AdvanceProtocol

  // ---------- one operation ----------

  /** The answers that the operation gets bring both steps of the request to one person. */
  predicate Clash(op: Op, r: Request) {
    match op
    case ApproverBatch(w, _, _, approve) =>
      approve && r.stepIndex == 0 && w.siteManagerOf(r.site) == Some(r.unitManager) && w.usable(r.unitManager)
    case ReassignAll(w, _, _, refresh) => NextUnitManager(w, r, refresh) == NextSiteManager(w, r)
    case _ => false
  }

  /** An operation on a request that asks two different managers leaves two different managers exactly when its answers do
      not clash. */
  lemma {:induction false} PersonsStayDistinct(op: Op, id: nat, r: Request)
    requires Invariant(r) && TwoManagers(r) && r.unitManager != r.siteManager && Attempt(op, id, r).Some?
    ensures var s := Attempt(op, id, r).value;
            TwoManagers(s) && (s.unitManager != s.siteManager <==> !Clash(op, r))
  {
    hide EnterStep, ReassignOne, Selected, Count, LogStatus, NextUnitManager, NextSiteManager;
    match op
    case ApproverBatch(w, employee, ids, approve) =>
      if approve {
        ApprovedPersons(w, r, employee);
      }
    case ReassignAll(w, only, approvers, refresh) =>
      ReassignedDistinct(w, r, refresh, true);
      ReassignChanges(w, r, refresh, true);
    case _ =>
  }

  lemma {:induction false} ApprovedPersons(w: World, r: Request, employee: int)
    requires Invariant(r) && TwoManagers(r) && r.unitManager != r.siteManager
    requires ApproverDecides(w, r, employee, true).Some?
    ensures var s := ApproverDecides(w, r, employee, true).value;
            && TwoManagers(s)
            && (s.unitManager != s.siteManager <==>
                  !(r.stepIndex == 0 && w.siteManagerOf(r.site) == Some(r.unitManager) && w.usable(r.unitManager)))
  {
    hide ReassignOne, Count, LogStatus, EnterStep;
    WhoDecides(w, r, employee, true);
    var advanced := r.(stepIndex := r.stepIndex + 1, log := r.log + [Entry(ApprovedBy, Person(employee))]);
    assert PersonOf(r, r.steps[0]) != r.employee;
    if r.stepIndex == 0 {
      EnteredDistinct(w, advanced);
      EnteredSame(w, advanced);
    } else {
      EnteredFinance(w, advanced);
    }
  }

  lemma EnteredSame(w: World, r: Request)
    requires TwoManagers(r) && r.stepIndex == 1
    ensures EnterStep(w, r).steps == r.steps
  {
    hide ReassignOne;
    ReassignChanges(w, r.(status := InReview), false, false);
  }

  lemma EnteredFinance(w: World, r: Request)
    requires TwoManagers(r) && r.stepIndex == 2
    ensures EnterStep(w, r) == r.(status := WaitingFinance, approver := None)
  {
  }

  // ---------- runs ----------

  predicate Distinct(r: Request) {
    TwoManagers(r) ==> r.unitManager != r.siteManager
  }

  /** What a late write leaves of the persons of a row. */
  predicate WriteClash(c: Change, now: Request) {
    (if c.next.unitManager != c.read.unitManager then c.next.unitManager else now.unitManager)
    == (if c.next.siteManager != c.read.siteManager then c.next.siteManager else now.siteManager)
  }

  /** No answer brings both steps of a request to one person: neither those that a row operation gets, nor those that a
      submission gets when the unit manager it found cannot approve, nor those that an unlocked call writes late. */
  predicate NoClash(cfg: int -> Config, s: Portal, op: Op) {
    match op
    case Insert(session, w, id, site, amount, unit, manager) =>
      var p := PhaseOf(s, session);
      p.Clear? && id !in s.table ==>
        var draft := Draft(site, p.employee, amount, p.today, RequestMonth(p.today, cfg(p.employee).from, cfg(p.employee).to),
                           unit, manager);
        TwoManagers(draft) ==> w.usable(unit) || NextUnitManager(w, draft, false) != NextSiteManager(w, draft)
    case WriteRows(session) =>
      forall id :: id in s.table && TwoManagers(s.table[id]) && id in PendingOf(s, session) ==>
        !WriteClash(PendingOf(s, session)[id], s.table[id])
    case _ =>
      forall id :: id in s.table && TwoManagers(s.table[id]) && Attempt(op, id, s.table[id]).Some? ==> !Clash(op, s.table[id])
  }

  ghost predicate RowsDistinct(table: Table) {
    forall id :: id in table ==> Distinct(table[id])
  }

  lemma {:induction false} NextDistinct(op: Op, id: nat, r: Request)
    requires Invariant(r) && Distinct(r)
    ensures Distinct(Next(op, id, r)) <==> !(TwoManagers(r) && Attempt(op, id, r).Some? && Clash(op, r))
  {
    hide Invariant, Attempt, Clash, Later, Routed, ClosedOnce;
    if Attempt(op, id, r).Some? {
      AttemptLater(op, id, r);
      LaterSteps(r, Attempt(op, id, r).value);
      if TwoManagers(r) {
        PersonsStayDistinct(op, id, r);
      }
    }
  }

  lemma LaterSteps(r: Request, n: Request)
    requires Later(r, n)
    ensures n.steps == r.steps
  {
  }

  lemma {:induction false} InsertDistinct(
    w: World, site: int, employee: int, amount: int, today: JalaliDate, month: Month, unit: int, manager: int
  )
    ensures var draft := Draft(site, employee, amount, today, month, unit, manager);
            Distinct(EnterStep(w, draft)) <==>
              (TwoManagers(draft) ==> w.usable(unit) || NextUnitManager(w, draft, false) != NextSiteManager(w, draft))
  {
    hide EnterStep, NextUnitManager, NextSiteManager;
    var draft := Draft(site, employee, amount, today, month, unit, manager);
    if TwoManagers(draft) {
      assert UnitManager in draft.steps && SiteManager in draft.steps by {
        assert draft.steps[0] == UnitManager && draft.steps[1] == SiteManager;
      }
      SubmittedDistinct(w, draft);
    }
    EnteredSteps(w, draft);
  }

  lemma EnteredSteps(w: World, r: Request)
    ensures EnterStep(w, r).steps == r.steps
  {
    hide ReassignOne;
    ReassignChanges(w, r.(status := InReview), false, false);
  }

  lemma {:induction false} DistinctStep(cfg: int -> Config, s: Portal, op: Op)
    requires RowsOk(s.table) && PendingSound(s) && RowsDistinct(s.table)
    ensures RowsDistinct(After(cfg, s, op).table) <==> NoClash(cfg, s, op)
  {
    hide Invariant, EnterStep, Draft, Follows, OpenOf, CountedOf, Clash, Distinct, Attempt, TwoManagers, Next, WriteClash;
    if op.Insert? {
      InsertStep(cfg, s, op);
    } else if op.WriteRows? {
      WriteStep(cfg, s, op);
    } else if IsSubmission(op) || op.ReadRows? {
      NothingAttempted(cfg, s, op);
    } else {
      RowOperation(cfg, s, op);
    }
  }

  lemma RowOperation(cfg: int -> Config, s: Portal, op: Op)
    requires RowsOk(s.table) && RowsDistinct(s.table)
    requires !IsSubmission(op) && !op.ReadRows? && !op.WriteRows?
    ensures RowsDistinct(After(cfg, s, op).table) <==> NoClash(cfg, s, op)
  {
    hide Invariant, Clash, Distinct, Attempt, TwoManagers, Next, EnterStep, Draft, OpenOf, CountedOf;
    forall id | id in s.table
      ensures Distinct(Next(op, id, s.table[id]))
         <==> !(TwoManagers(s.table[id]) && Attempt(op, id, s.table[id]).Some? && Clash(op, s.table[id]))
    {
      NextDistinct(op, id, s.table[id]);
    }
    var n := After(cfg, s, op).table;
    assert n == NextTable(op, s.table);
    assert forall id :: id in s.table ==> n[id] == Next(op, id, s.table[id]);
  }

  lemma NothingAttempted(cfg: int -> Config, s: Portal, op: Op)
    requires (IsSubmission(op) && !op.Insert?) || op.ReadRows?
    ensures After(cfg, s, op).table == s.table && forall id, r :: Attempt(op, id, r) == None
  {
    hide OpenOf, CountedOf;
  }

  lemma InsertStep(cfg: int -> Config, s: Portal, op: Op)
    requires RowsDistinct(s.table) && op.Insert?
    ensures RowsDistinct(After(cfg, s, op).table) <==> NoClash(cfg, s, op)
  {
    hide EnterStep, Draft, OpenOf, CountedOf, Distinct, TwoManagers, NextUnitManager, NextSiteManager;
    var p := PhaseOf(s, op.session);
    if p.Clear? && op.id !in s.table {
      var month := RequestMonth(p.today, cfg(p.employee).from, cfg(p.employee).to);
      var draft := Draft(op.site, p.employee, op.amount, p.today, month, op.unit, op.manager);
      InsertDistinct(op.w, op.site, p.employee, op.amount, p.today, month, op.unit, op.manager);
      assert NoClash(cfg, s, op)
        <==> (TwoManagers(draft) ==> op.w.usable(op.unit) || NextUnitManager(op.w, draft, false) != NextSiteManager(op.w, draft));
      var n := After(cfg, s, op).table;
      assert n == s.table[op.id := EnterStep(op.w, draft)];
      assert RowsDistinct(n) ==> Distinct(n[op.id]);
    }
  }

  lemma WriteStep(cfg: int -> Config, s: Portal, op: Op)
    requires RowsDistinct(s.table) && PendingSound(s) && op.WriteRows?
    ensures RowsDistinct(After(cfg, s, op).table) <==> NoClash(cfg, s, op)
  {
    hide Follows, PendingOf;
    var changes := PendingOf(s, op.session);
    var n := After(cfg, s, op).table;
    assert n == WrittenTable(changes, s.table);
    assert forall id :: id in s.table ==> id in n && n[id].steps == s.table[id].steps;
    assert forall id :: id in s.table && id in changes ==>
        ((n[id].unitManager == n[id].siteManager) <==> WriteClash(changes[id], s.table[id]));
  }

  ghost predicate NeverClash(cfg: int -> Config, ops: seq<Op>) {
    forall i :: 0 <= i < |ops| ==> NoClash(cfg, Run(cfg, ops[..i]), ops[i])
  }

  lemma {:induction false} ClashFront(cfg: int -> Config, ops: seq<Op>, n: nat)
    requires NeverClash(cfg, ops) && n <= |ops|
    ensures NeverClash(cfg, ops[..n])
    ensures n < |ops| ==> NoClash(cfg, Run(cfg, ops[..n]), ops[n])
  {
    hide Run, NoClash;
    forall i | 0 <= i < n
      ensures NoClash(cfg, Run(cfg, ops[..n][..i]), ops[..n][i])
    {
      assert ops[..n][..i] == ops[..i];
    }
  }

  lemma {:induction false} RunDistinct(cfg: int -> Config, ops: seq<Op>)
    requires NeverClash(cfg, ops)
    ensures RowsDistinct(Run(cfg, ops).table)
  {
    hide After, NeverClash, NoClash, RowsDistinct, CountsOk, RowsOk, PendingSound;
    if ops == [] {
      NothingClashes();
    } else {
      var front, last := ops[..|ops| - 1], ops[|ops| - 1];
      ClashFront(cfg, ops, |ops| - 1);
      RunDistinct(cfg, front);
      RunOk(cfg, front);
      DistinctStep(cfg, Run(cfg, front), last);
    }
  }

  lemma NothingClashes()
    ensures RowsDistinct(EMPTY.table)
  {
  }

  lemma {:induction false} FirstClash(cfg: int -> Config, ops: seq<Op>) returns (i: nat)
    requires !NeverClash(cfg, ops)
    ensures i < |ops| && !NoClash(cfg, Run(cfg, ops[..i]), ops[i]) && NeverClash(cfg, ops[..i])
  {
    hide Run, NoClash;
    var k :| 0 <= k < |ops| && !NoClash(cfg, Run(cfg, ops[..k]), ops[k]);
    if NeverClash(cfg, ops[..k]) {
      i := k;
    } else {
      i := FirstClash(cfg, ops[..k]);
      assert ops[..k][..i] == ops[..i];
    }
  }

  /** Over every run, late writes included: a request that asks two managers asks two different persons at every moment if
      and only if no answer and no late write clashes. */
  lemma {:induction false} DistinctExactly(cfg: int -> Config, ops: seq<Op>)
    ensures (forall n :: 0 <= n <= |ops| ==> RowsDistinct(Run(cfg, ops[..n]).table)) <==> NeverClash(cfg, ops)
  {
    hide Run, After, RowsDistinct, NeverClash, NoClash, CountsOk, RowsOk, PendingSound;
    if NeverClash(cfg, ops) {
      forall n | 0 <= n <= |ops|
        ensures RowsDistinct(Run(cfg, ops[..n]).table)
      {
        ClashFront(cfg, ops, n);
        RunDistinct(cfg, ops[..n]);
      }
    } else {
      var i := FirstClash(cfg, ops);
      RunDistinct(cfg, ops[..i]);
      RunOk(cfg, ops[..i]);
      DistinctStep(cfg, Run(cfg, ops[..i]), ops[i]);
      LastOp(cfg, ops, i);
    }
  }

  // ---------- two runs ----------

  /** A world in which everybody may approve; unit manager 1, site manager as given. */
  function Answers(siteManager: int): World {
    World((site: int) => Some(siteManager), (person: int) => true, (requester: int) => Some(1),
          (site: int, person: int) => None)
  }

  /** All days of the month, five requests. */
  function Plain(): int -> Config {
    (employee: int) => Config(1, 31, 5)
  }

  const TODAY := JalaliDate(1404, 1, 10)

  /** Employee 9 submits request 1 at site 1. */
  function Submission(unit: int, manager: int): seq<Op> {
    [LockEmployee(0, 9), CountMonth(0, TODAY), CheckOpen(0), Insert(0, Answers(manager), 1, 1, 100, unit, manager)]
  }

  function FirstRow(unit: int, manager: int): Request {
    EnterStep(Answers(manager), Draft(1, 9, 100, TODAY, Month(1404, 1), unit, manager))
  }

  lemma {:induction false} RunSnoc(cfg: int -> Config, ops: seq<Op>, op: Op)
    ensures Run(cfg, ops + [op]) == After(cfg, Run(cfg, ops), op)
  {
    hide After;
    assert (ops + [op])[..|ops|] == ops;
  }

  lemma NoneCounted()
    ensures CountedOf(map[], 9, Month(1404, 1)) == {} && OpenOf(map[], 9) == {}
    ensures RealDate(TODAY) && InWindow(TODAY.day, 1, 31) && RequestMonth(TODAY, 1, 31) == Month(1404, 1)
  {
  }

  lemma {:induction false} Submitted(unit: int, manager: int)
    ensures Run(Plain(), Submission(unit, manager)) == Portal(map[1 := FirstRow(unit, manager)], map[], map[0 := Idle], map[])
  {
    hide EnterStep, Draft, CountedOf, OpenOf, RealDate, InWindow, RequestMonth, Run;
    NoneCounted();
    var ops := Submission(unit, manager);
    var cfg := Plain();
    NoOps(cfg);
    RunSnoc(cfg, [], ops[0]);
    RunSnoc(cfg, [ops[0]], ops[1]);
    RunSnoc(cfg, [ops[0], ops[1]], ops[2]);
    RunSnoc(cfg, [ops[0], ops[1], ops[2]], ops[3]);
    assert [] + [ops[0]] == [ops[0]] && [ops[0]] + [ops[1]] == [ops[0], ops[1]];
    assert [ops[0], ops[1]] + [ops[2]] == [ops[0], ops[1], ops[2]];
    assert [ops[0], ops[1], ops[2]] + [ops[3]] == ops;
    var s1 := Portal(map[], map[9 := 0], map[0 := Locked(9)], map[]);
    assert After(cfg, EMPTY, ops[0]) == s1;
    var s2 := s1.(phase := map[0 := Counted(9, TODAY)]);
    assert After(cfg, s1, ops[1]) == s2;
    var s3 := s1.(phase := map[0 := Clear(9, TODAY)]);
    assert After(cfg, s2, ops[2]) == s3;
    assert map[9 := 0] - {9} == map[];
  }

  lemma NoOps(cfg: int -> Config)
    ensures Run(cfg, []) == EMPTY
  {
  }

  /** One operation on the single row of a table. */
  lemma {:induction false} OneRowAfter(ops: seq<Op>, op: Op, r: Request, n: Request)
    requires Run(Plain(), ops) == Portal(map[1 := r], map[], map[0 := Idle], map[])
    requires !IsSubmission(op) && !op.ReadRows? && !op.WriteRows? && Attempt(op, 1, r) == Some(n)
    ensures Run(Plain(), ops + [op]) == Portal(map[1 := n], map[], map[0 := Idle], map[])
  {
    hide Attempt, Run;
    RunSnoc(Plain(), ops, op);
    assert NextTable(op, map[1 := r]) == map[1 := n];
  }

  /** The two managers of a request, 1 and 2. */
  lemma {:induction false} FirstReview()
    ensures var r := FirstRow(1, 2);
            && r.steps == [UnitManager, SiteManager, Finance] && r.stepIndex == 0 && r.status == InReview
            && r.approver == Some(1) && r.unitManager == 1 && r.siteManager == 2 && r.employee == 9 && r.site == 1
            && r.log == [Entry(SubmittedBy, Person(9))]
  {
  }

  /** Manager 1 approves after the setting has named manager 1 for the site too. */
  lemma {:induction false} FirstApproval(r: Request)
    requires r == FirstRow(1, 2)
    ensures var n := ApproverDecides(Answers(1), r, 1, true);
            && n.Some?
            && n.value.stepIndex == 1 && n.value.status == InReview && n.value.steps == r.steps && n.value.employee == 9
            && n.value.unitManager == n.value.siteManager == 1 && n.value.approver == Some(1)
            && n.value.log == r.log + [Entry(ApprovedBy, Person(1)), Entry(ApproverChanged, System)]
  {
    FirstReview();
    hide FirstRow;
    var advanced := r.(stepIndex := 1, log := r.log + [Entry(ApprovedBy, Person(1))]);
    Reassigning(Answers(1), advanced);
    hide ReassignOne;
    assert advanced.log + [Entry(ApproverChanged, System)]
        == r.log + [Entry(ApprovedBy, Person(1)), Entry(ApproverChanged, System)];
  }

  lemma {:induction false} Reassigning(w: World, r: Request)
    requires TwoManagers(r) && r.stepIndex == 1 && r.unitManager == 1 && r.siteManager == 2 && r.employee == 9
    requires r.status == InReview && w == Answers(1)
    ensures var s := ReassignOne(w, r, false, false);
            s == r.(siteManager := 1, log := r.log + [Entry(ApproverChanged, System)])
  {
    ReassignPersons(w, r, false, false);
    ReassignChanges(w, r, false, false);
    NotMoving(w, r);
    hide ReassignOne;
  }

  lemma NotMoving(w: World, r: Request)
    ensures var s := ReassignOne(w, r, false, false);
            s == r.(unitManager := s.unitManager, siteManager := s.siteManager, log := s.log)
  {
    hide PlanFor;
  }

  /** A run in which one person decides both steps: the route asked managers 1 and 2, the setting changed to 1 before the
      first approval, and 1 approves twice. */
  lemma {:induction false} AskedTwice() returns (ops: seq<Op>)
    ensures AllTimely(Plain(), ops) && 1 in Run(Plain(), ops).table
    ensures var r := Run(Plain(), ops).table[1];
            && TwoManagers(r) && r.status == WaitingFinance
            && r.log == [Entry(SubmittedBy, Person(9)), Entry(ApprovedBy, Person(1)), Entry(ApproverChanged, System),
                         Entry(ApprovedBy, Person(1))]
  {
    hide Run, FirstRow, EnterStep;
    var decide := ApproverBatch(Answers(1), 1, {1}, true);
    var start := Submission(1, 2);
    var r0 := FirstRow(1, 2);
    FirstReview();
    FirstApproval(r0);
    var r1 := ApproverDecides(Answers(1), r0, 1, true).value;
    var r2 := r1.(stepIndex := 2, log := r1.log + [Entry(ApprovedBy, Person(1))], status := WaitingFinance, approver := None);
    SecondApproval(r1);
    Submitted(1, 2);
    OneRowAfter(start, decide, r0, r1);
    OneRowAfter(start + [decide], decide, r1, r2);
    ops := start + [decide] + [decide];
    assert AllTimely(Plain(), ops) by {
      hide Timely;
      NothingWritten(ops);
    }
    assert r2.log == [Entry(SubmittedBy, Person(9)), Entry(ApprovedBy, Person(1)), Entry(ApproverChanged, System),
                      Entry(ApprovedBy, Person(1))];
  }

  lemma {:induction false} SecondApproval(r: Request)
    requires r.stepIndex == 1 && r.status == InReview && TwoManagers(r) && r.approver == Some(1)
    ensures ApproverDecides(Answers(1), r, 1, true)
         == Some(r.(stepIndex := 2, log := r.log + [Entry(ApprovedBy, Person(1))], status := WaitingFinance, approver := None))
  {
  }

  lemma NothingWritten(ops: seq<Op>)
    requires forall i :: 0 <= i < |ops| ==> !ops[i].WriteRows?
    ensures AllTimely(Plain(), ops)
  {
    hide Run;
  }

  /** A run in which a paid request becomes cancelled: the cancellation of a leaver's requests read it approved, and writes
      after the payment. */
  lemma {:induction false} PaymentOverwritten() returns (paid: seq<Op>, ops: seq<Op>)
    ensures paid < ops
    ensures 1 in Run(Plain(), paid).table && Run(Plain(), paid).table[1].status == Paid
    ensures 1 in Run(Plain(), ops).table && Run(Plain(), ops).table[1].status == Cancelled
  {
    hide Run, FirstRow, EnterStep, Submission;
    var start, r0 := Submission(9, 9), FirstRow(9, 9);
    OwnManager();
    var r1 := FinanceDecides(r0, 1, 5, true).value;
    Submitted(9, 9);
    OneRowAfter(start, FinanceBatch(1, 5, {1}, true), r0, r1);
    var before := start + [FinanceBatch(1, 5, {1}, true)];
    var leave, pay := EmployeesLeft({9}), PayBatch(1, 5, {1}, "1404/01/11");
    PaidThenCancelled(before, r1, leave, pay);
    paid := before + [ReadRows(7, leave)] + [pay];
    ops := paid + [WriteRows(7)];
  }

  /** A requester who is both managers is asked for nothing: only the finance unit decides. */
  lemma {:induction false} OwnManager()
    ensures var r := FirstRow(9, 9);
            r.steps == [Finance] && r.status == WaitingFinance && r.site == 1 && r.employee == 9 && r.approver == None
  {
  }

  lemma {:induction false} ReadOpen(before: seq<Op>, r: Request, leave: Op)
    requires Run(Plain(), before) == Portal(map[1 := r], map[], map[0 := Idle], map[])
    requires r.status == Approved && r.employee == 9 && leave == EmployeesLeft({9})
    ensures Run(Plain(), before + [ReadRows(7, leave)])
         == Portal(map[1 := r], map[], map[0 := Idle], map[7 := map[1 := Change(r, RequesterLeft(r).value)]])
  {
    hide Run, RequesterLeft;
    RunSnoc(Plain(), before, ReadRows(7, leave));
    OpenLeft(r);
    assert ChangesOf(leave, map[1 := r]) == map[1 := Change(r, RequesterLeft(r).value)];
  }

  lemma OpenLeft(r: Request)
    requires IsOpen(r.status)
    ensures RequesterLeft(r)
         == Some(r.(status := Cancelled, approver := None, log := r.log + [Entry(CancelledBy, System)]))
  {
  }

  lemma {:induction false} PaidThenCancelled(before: seq<Op>, r: Request, leave: Op, pay: Op)
    requires Run(Plain(), before) == Portal(map[1 := r], map[], map[0 := Idle], map[])
    requires r.status == Approved && r.employee == 9 && r.site == 1
    requires leave == EmployeesLeft({9}) && pay == PayBatch(1, 5, {1}, "1404/01/11")
    ensures var paid := Run(Plain(), before + [ReadRows(7, leave)] + [pay]);
            1 in paid.table && paid.table[1].status == Paid
    ensures var done := Run(Plain(), before + [ReadRows(7, leave)] + [pay] + [WriteRows(7)]);
            1 in done.table && done.table[1].status == Cancelled
  {
    hide Run, RequesterLeft;
    var cfg, ops := Plain(), before + [ReadRows(7, leave)];
    ReadOpen(before, r, leave);
    OpenLeft(r);
    RunSnoc(cfg, ops, pay);
    RunSnoc(cfg, ops + [pay], WriteRows(7));
    hide Plain;
    var c := Change(r, RequesterLeft(r).value);
    assert PendingOf(Run(cfg, ops + [pay]), 7) == map[1 := c];
  }
}
