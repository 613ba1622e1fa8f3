/** The table before and after each operation. */
module AdvanceOutcomes {
  // The promises of the service (backend/app/services/advance_service.py) over the columns of a row before and after,
  // apart from the way in which the operations are put together: who may act on which row, what becomes of it, and
  // what stays as it was.

  import opened Common
  import opened JalaliCalendar
  import opened Months
  import opened AdvanceRules
  import opened AdvanceRequests
  import opened AdvanceProtocol

  // ---------- finance ----------

  /** The finance unit's answer: the listed requests of its site that wait for it are approved and done with every step,
      or rejected; no other row changes, of this site or another. */
  ghost predicate FinanceAnswered(before: Table, after: Table, site: int, user: int, ids: seq<nat>, approve: bool) {
    && after.Keys == before.Keys
    && forall id :: id in before ==>
         var r, n := before[id], after[id];
         if id in ids && r.site == site && r.status == WaitingFinance then
           if approve then
             n == r.(status := Approved, stepIndex := |r.steps|, log := r.log + [Entry(ApprovedBy, FinanceUnit(user))])
           else
             n == r.(status := Rejected, log := r.log + [Entry(RejectedBy, FinanceUnit(user))])
         else n == r
  }

  lemma {:induction false} FinanceOutcome(table: Table, site: int, user: int, ids: seq<nat>, listed: set<nat>, approve: bool)
    requires forall id :: id in listed <==> id in ids
    ensures var op := FinanceBatch(site, user, listed, approve);
            && FinanceAnswered(table, NextTable(op, table), site, user, ids, approve)
            && forall id :: id in ids && id in table ==>
                 (Attempt(op, id, table[id]).Some? <==> table[id].site == site && table[id].status == WaitingFinance)
  {
  }

  /** The finance unit's payment, with its date. */
  ghost predicate FinancePaid(before: Table, after: Table, site: int, user: int, ids: seq<nat>, date: string) {
    && after.Keys == before.Keys
    && forall id :: id in before ==>
         var r, n := before[id], after[id];
         if id in ids && r.site == site && r.status == Approved then
           n == r.(status := Paid, paidOn := Some(date), log := r.log + [Entry(PaidBy, FinanceUnit(user))])
         else n == r
  }

  lemma {:induction false} PayOutcome(table: Table, site: int, user: int, ids: seq<nat>, listed: set<nat>, date: string)
    requires forall id :: id in listed <==> id in ids
    ensures var op := PayBatch(site, user, listed, date);
            && FinancePaid(table, NextTable(op, table), site, user, ids, date)
            && forall id :: id in ids && id in table ==>
                 (Attempt(op, id, table[id]).Some? <==> table[id].site == site && table[id].status == Approved)
  {
  }

  // ---------- cancellations ----------

  /** Of the one request, if it is the employee's own and still to be decided. */
  ghost predicate OwnCancelled(before: Table, after: Table, employee: int, target: nat) {
    && after.Keys == before.Keys
    && forall id :: id in before ==>
         var r, n := before[id], after[id];
         if id == target && r.employee == employee && (r.status == InReview || r.status == WaitingFinance) then
           n == r.(status := Cancelled, approver := None, log := r.log + [Entry(CancelledBy, Person(employee))])
         else n == r
  }

  lemma {:induction false} CancelOutcome(table: Table, employee: int, target: nat)
    ensures OwnCancelled(table, NextTable(CancelOne(employee, target), table), employee, target)
  {
  }

  /** Of every request of the employees that is not paid, rejected or cancelled already. */
  ghost predicate LeaversCancelled(before: Table, after: Table, employees: set<int>) {
    && after.Keys == before.Keys
    && forall id :: id in before ==>
         var r, n := before[id], after[id];
         if r.employee in employees && r.status != Paid && r.status != Rejected && r.status != Cancelled then
           n == r.(status := Cancelled, approver := None, log := r.log + [Entry(CancelledBy, System)])
         else n == r
  }

  lemma {:induction false} LeftOutcome(table: Table, employees: set<int>)
    ensures var op := EmployeesLeft(employees);
            && LeaversCancelled(table, NextTable(op, table), employees)
            && forall id :: id in table ==>
                 (Attempt(op, id, table[id]).Some? <==>
                  table[id].employee in employees
                  && table[id].status != Paid && table[id].status != Rejected && table[id].status != Cancelled)
  {
  }

  // ---------- reassignment ----------

  /** Is this the step of somebody who has yet to decide? */
  predicate ToCome(r: Request, step: Step) {
    exists i :: r.stepIndex <= i < |r.steps| && r.steps[i] == step
  }

  /** The unit manager that a reassignment leaves: the answer of the leave chain if the step is to come, the answer is asked
      for, and it is somebody other than the requester. */
  function NewUnitManager(w: World, r: Request, refresh: bool): int {
    match w.unitManagerOf(r.employee)
    case None => r.unitManager
    case Some(m) =>
      if ToCome(r, UnitManager) && m != r.employee && (refresh || !w.usable(r.unitManager)) then m else r.unitManager
  }

  /** The site manager that it leaves: the one of the settings if the step is to come and that person, other than the
      requester, may approve. */
  function NewSiteManager(w: World, r: Request): int {
    match w.siteManagerOf(r.site)
    case None => r.siteManager
    case Some(m) => if ToCome(r, SiteManager) && m != r.employee && w.usable(m) then m else r.siteManager
  }

  /** The row with its new persons; the log tells of it if one of them differs. */
  function WithPersons(r: Request, unit: int, manager: int): Request {
    r.(unitManager := unit, siteManager := manager,
       log := if unit != r.unitManager || manager != r.siteManager then r.log + [Entry(ApproverChanged, System)] else r.log)
  }

  /** The step at which a request under review stands. */
  predicate StandsAt(r: Request, step: Step) {
    r.steps != [] && r.steps[if r.stepIndex < |r.steps| then r.stepIndex else |r.steps| - 1] == step
  }

  /** The approver after a reassignment: the new person of the current step if that one is new. */
  function NewApprover(r: Request, unit: int, manager: int): Option<int> {
    if StandsAt(r, UnitManager) && unit != r.unitManager then Some(unit)
    else if StandsAt(r, SiteManager) && manager != r.siteManager then Some(manager)
    else r.approver
  }

  /** A reassignment writes the two persons, the approver of the current step and the log, and nothing else. */
  lemma {:induction false} ReassignExactly(w: World, r: Request, refresh: bool, moving: bool)
    requires moving ==> r.status.InReview?
    ensures var unit, manager := NewUnitManager(w, r, refresh), NewSiteManager(w, r);
            ReassignOne(w, r, refresh, moving)
            == (if moving then WithPersons(r, unit, manager).(approver := NewApprover(r, unit, manager))
                else WithPersons(r, unit, manager))
  {
    assert forall k :: ToCome(r, k) <==> Ahead(r.steps, r.stepIndex, k);
    hide ToCome, Ahead;
    var plan := PlanFor(w, r, refresh);
    assert UnitManager in plan ==> plan[UnitManager] == NewUnitManager(w, r, refresh) != r.unitManager;
    assert UnitManager !in plan ==> NewUnitManager(w, r, refresh) == r.unitManager;
    assert SiteManager in plan ==> plan[SiteManager] == NewSiteManager(w, r) != r.siteManager;
    assert SiteManager !in plan ==> NewSiteManager(w, r) == r.siteManager;
    assert Finance !in plan;
    PlanEmpty(plan);
    hide PlanFor, NewUnitManager, NewSiteManager;
  }

  lemma PlanEmpty(plan: map<Step, int>)
    requires Finance !in plan
    ensures plan == map[] <==> UnitManager !in plan && SiteManager !in plan
  {
    if UnitManager !in plan && SiteManager !in plan {
      forall k: Step
        ensures k !in plan
      {
        match k
        case UnitManager =>
        case SiteManager =>
        case Finance =>
      }
    }
  }

  /** Which rows a call for a site, or for the requests of some approvers, takes up. */
  predicate TakenUp(r: Request, only: Option<int>, approvers: set<int>) {
    && r.status == InReview
    && (only == None || only == Some(r.site))
    && (approvers == {} || r.unitManager in approvers || r.siteManager in approvers)
  }

  /** The rows under review that the call takes up get their new persons and approver; no other row changes. */
  ghost predicate AllReassigned(
    before: Table, after: Table, w: World, only: Option<int>, approvers: set<int>, refresh: bool
  ) {
    && after.Keys == before.Keys
    && forall id :: id in before ==>
         var r, n := before[id], after[id];
         if TakenUp(r, only, approvers) then
           var unit, manager := NewUnitManager(w, r, refresh), NewSiteManager(w, r);
           n == WithPersons(r, unit, manager).(approver := NewApprover(r, unit, manager))
         else n == r
  }

  lemma {:induction false} ReassignOutcome(w: World, table: Table, only: Option<int>, approvers: set<int>, refresh: bool)
    ensures AllReassigned(table, NextTable(ReassignAll(w, only, approvers, refresh), table), w, only, approvers, refresh)
  {
    hide ReassignOne, NewUnitManager, NewSiteManager, NewApprover, WithPersons;
    var op := ReassignAll(w, only, approvers, refresh);
    forall id | id in table
      ensures var r := table[id];
              Next(op, id, r) == (if TakenUp(r, only, approvers) then ReassignOne(w, r, refresh, true) else r)
    {
    }
    forall id | id in table && TakenUp(table[id], only, approvers)
      ensures var r := table[id];
              var unit, manager := NewUnitManager(w, r, refresh), NewSiteManager(w, r);
              ReassignOne(w, r, refresh, true) == WithPersons(r, unit, manager).(approver := NewApprover(r, unit, manager))
    {
      ReassignExactly(w, table[id], refresh, true);
    }
    hide Next;
  }

  // ---------- entering a step ----------

  /** Finance has no person; a person step goes to the stored person, or to a new one when the settings name another site
      manager or the stored person can no longer approve. */
  ghost predicate MovedOn(w: World, r: Request, n: Request) {
    var unit, manager := NewUnitManager(w, r, false), NewSiteManager(w, r);
    if StandsAt(r, UnitManager) then
      n == if w.usable(r.unitManager) then r.(status := InReview, approver := Some(r.unitManager))
           else WithPersons(r, unit, manager).(status := InReview, approver := Some(unit))
    else if StandsAt(r, SiteManager) then
      n == if w.usable(r.siteManager) && (w.siteManagerOf(r.site) == None || w.siteManagerOf(r.site) == Some(r.siteManager))
           then r.(status := InReview, approver := Some(r.siteManager))
           else WithPersons(r, unit, manager).(status := InReview, approver := Some(manager))
    else
      n == r.(status := WaitingFinance, approver := None)
  }

  lemma {:induction false} EnterExactly(w: World, r: Request)
    ensures MovedOn(w, r, EnterStep(w, r))
  {
    var review := r.(status := InReview);
    ReassignExactly(w, review, false, false);
    SamePersons(w, review, r);
    hide ReassignOne, NewUnitManager, NewSiteManager;
  }

  lemma SamePersons(w: World, a: Request, b: Request)
    requires a.steps == b.steps && a.stepIndex == b.stepIndex && a.employee == b.employee && a.site == b.site
    requires a.unitManager == b.unitManager && a.siteManager == b.siteManager
    ensures NewUnitManager(w, a, false) == NewUnitManager(w, b, false) && NewSiteManager(w, a) == NewSiteManager(w, b)
  {
    assert forall k :: ToCome(a, k) <==> ToCome(b, k);
    hide ToCome;
  }

  // ---------- the approver's answer ----------

  /** The request waits for this employee: the current approver, or the active substitute of that person unless the request
      is the substitute's own. */
  predicate MayAnswer(w: World, r: Request, employee: int) {
    && (r.status == InReview || r.status == WaitingFinance)
    && (StandsAt(r, UnitManager) || StandsAt(r, SiteManager))
    && r.approver.Some?
    && (r.approver.value == employee
        || (r.employee != employee && w.substituteOf(r.site, r.approver.value) == Some(employee)))
  }

  /** The employee's answer to the listed requests that wait for it: an approval is logged and moves the request on, a refusal
      is logged and ends it; no other row changes. */
  ghost predicate Answered(before: Table, after: Table, w: World, employee: int, ids: seq<nat>, approve: bool) {
    && after.Keys == before.Keys
    && forall id :: id in before ==>
         var r, n := before[id], after[id];
         if id in ids && MayAnswer(w, r, employee) then
           if approve then
             MovedOn(w, r.(stepIndex := r.stepIndex + 1, log := r.log + [Entry(ApprovedBy, Person(employee))]), n)
           else
             n == r.(status := Rejected, approver := None, log := r.log + [Entry(RejectedBy, Person(employee))])
         else n == r
  }

  lemma {:induction false} AnswerOutcome(w: World, table: Table, employee: int, ids: seq<nat>, listed: set<nat>, approve: bool)
    requires forall id :: id in listed <==> id in ids
    ensures var op := ApproverBatch(w, employee, listed, approve);
            && Answered(table, NextTable(op, table), w, employee, ids, approve)
            && forall id :: id in ids && id in table ==>
                 (Attempt(op, id, table[id]).Some? <==> MayAnswer(w, table[id], employee))
  {
    hide EnterStep, MovedOn, MayAnswer;
    forall r
      ensures ApproverDecides(w, r, employee, approve).Some? <==> MayAnswer(w, r, employee)
    {
      WhoAnswers(w, r, employee, approve);
    }
    forall r
      ensures MovedOn(w, r, EnterStep(w, r))
    {
      EnterExactly(w, r);
    }
  }

  lemma WhoAnswers(w: World, r: Request, employee: int, approve: bool)
    ensures ApproverDecides(w, r, employee, approve).Some? <==> MayAnswer(w, r, employee)
  {
    hide EnterStep;
  }

  // ---------- a new request ----------

  /** The managers to ask, in this order, without the requester and without asking one person twice; then finance. */
  function StepsFor(employee: int, unit: int, manager: int): seq<Step> {
    if unit == employee then
      if manager == employee then [Finance] else [SiteManager, Finance]
    else
      if manager == employee || manager == unit then [UnitManager, Finance] else [UnitManager, SiteManager, Finance]
  }

  /** A new row: what was asked for and when, the two managers, the log of its submission; and it has entered its first
      step. */
  ghost predicate Filed(
    w: World, n: Request, site: int, employee: int, amount: int, today: JalaliDate, month: Month, unit: int, manager: int
  ) {
    MovedOn(w,
      Request(site, employee, amount, today, month, StepsFor(employee, unit, manager), 0, unit, manager,
              None, InReview, None, [Entry(SubmittedBy, Person(employee))]),
      n)
  }

  lemma {:induction false} NewRequest(
    w: World, site: int, employee: int, amount: int, today: JalaliDate, month: Month, unit: int, manager: int
  )
    ensures var n := EnterStep(w, Draft(site, employee, amount, today, month, unit, manager));
            Filed(w, n, site, employee, amount, today, month, unit, manager)
  {
    hide EnterStep, MovedOn;
    EnterExactly(w, Draft(site, employee, amount, today, month, unit, manager));
  }

  // ---------- the cap ----------

  /** Nothing of the kind is in the log. */
  predicate Never(log: seq<Entry>, action: Action) {
    forall e :: e in log ==> e.action != action
  }

  /** An employee's requests for a month that nobody has refused or cancelled. */
  ghost function Standing(table: Table, employee: int, month: Month): set<nat> {
    set id | id in table && table[id].employee == employee && table[id].month == month
             && Never(table[id].log, RejectedBy) && Never(table[id].log, CancelledBy)
  }

  /** An employee's requests on which nobody has the last word yet. */
  ghost function Unsettled(table: Table, employee: int): set<nat> {
    set id | id in table && table[id].employee == employee
             && Never(table[id].log, RejectedBy) && Never(table[id].log, CancelledBy) && Never(table[id].log, PaidBy)
  }

  /** At every moment of every run, read off the logs alone: an employee's requests for a month that are neither refused nor
      cancelled are at most the cap, and at most one request of an employee is neither refused, cancelled nor paid. */
  lemma {:induction false} CapOnLogs(cfg: int -> Config, ops: seq<Op>, employee: int, month: Month)
    ensures var table := Run(cfg, ops).table;
            |Standing(table, employee, month)| <= cfg(employee).maxPerMonth && |Unsettled(table, employee)| <= 1
  {
    var table := Run(cfg, ops).table;
    RunOk(cfg, ops);
    assert RowsOk(table) && CapsOk(cfg, table);
    forall id | id in table
      ensures var r := table[id];
              Never(r.log, RejectedBy) && Never(r.log, CancelledBy) ==>
                IsCounted(r.status) && (Never(r.log, PaidBy) ==> IsOpen(r.status))
    {
      StandingStatus(table[id]);
    }
    SmallerSet(Standing(table, employee, month), CountedOf(table, employee, month));
    SmallerSet(Unsettled(table, employee), OpenOf(table, employee));
  }

  lemma {:induction false} StandingStatus(r: Request)
    requires Invariant(r)
    ensures Never(r.log, RejectedBy) && Never(r.log, CancelledBy) ==>
              IsCounted(r.status) && (Never(r.log, PaidBy) ==> IsOpen(r.status))
  {
    hide Count;
    NoneLogged(r.log, RejectedBy);
    NoneLogged(r.log, CancelledBy);
    NoneLogged(r.log, PaidBy);
  }

  lemma {:induction false} NoneLogged(log: seq<Entry>, action: Action)
    ensures Count(log, action) == 0 <==> Never(log, action)
  {
    if log != [] {
      NoneLogged(log[..|log| - 1], action);
      assert log == log[..|log| - 1] + [log[|log| - 1]];
    }
  }

  /** An employee's rows for a month in any status but two. */
  function RowsCounting(table: Table, employee: int, month: Month): set<nat> {
    set id | id in table && table[id].employee == employee && table[id].month == month
             && table[id].status != Rejected && table[id].status != Cancelled
  }

  lemma CountingExactly(table: Table, employee: int, month: Month)
    ensures CountedOf(table, employee, month) == RowsCounting(table, employee, month)
  {
  }

  lemma OpenExactly(table: Table, employee: int)
    ensures OpenOf(table, employee) != {} <==>
              exists id :: id in table && table[id].employee == employee
                           && table[id].status != Paid && table[id].status != Rejected && table[id].status != Cancelled
  {
    if id :| id in table && table[id].employee == employee
             && table[id].status != Paid && table[id].status != Rejected && table[id].status != Cancelled {
      assert id in OpenOf(table, employee);
    }
  }
}
