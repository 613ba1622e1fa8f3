/**
 The life of one advance payment request (backend/app/services/advance_service.py,
 backend/app/services/approver_reassign.py).
 */
module AdvanceRequests {
  // Every operation is a function of the stored row and of what the outside world answers at that moment: the site's
  // manager setting, who may approve, the leave approval chain and the substitutes. `Invariant` is kept by each of
  // them.

  import opened Common
  import opened JalaliCalendar
  import opened Months
  import opened AdvanceRules

  datatype Status = InReview | WaitingFinance | Approved | Paid | Rejected | Cancelled

  datatype Actor = Person(employee: int) | FinanceUnit(user: int) | System

  datatype Action = SubmittedBy | ApprovedBy | RejectedBy | CancelledBy | PaidBy | ApproverChanged

  datatype Entry = Entry(action: Action, actor: Actor)

  /** A row of the request table with its event log. */
  datatype Request = Request(
    site: int, employee: int, amount: int, submittedOn: JalaliDate, month: Month,
    steps: seq<Step>, stepIndex: nat, unitManager: int, siteManager: int, approver: Option<int>,
    status: Status, paidOn: Option<string>, log: seq<Entry>)

  /** What the rest of the portal answers when an operation asks. */
  datatype World = World(
    siteManagerOf: int -> Option<int>,        // by site: the manager in the settings
    usable: int -> bool,                      // may this employee approve?
    unitManagerOf: int -> Option<int>,        // by requester: the approver of the leave chain
    substituteOf: (int, int) -> Option<int>)  // by site and manager: the active substitute

  predicate IsOpen(s: Status) {
    s.InReview? || s.WaitingFinance? || s.Approved?
  }

  predicate IsCounted(s: Status) {
    IsOpen(s) || s.Paid?
  }

  predicate IsFinal(s: Status) {
    s.Paid? || s.Rejected? || s.Cancelled?
  }

  // ---------- steps ----------

  function StepAt(r: Request): Step {
    if r.steps == [] then Finance
    else r.steps[if r.stepIndex < |r.steps| then r.stepIndex else |r.steps| - 1]
  }

  function CurrentStep(r: Request): Option<Step> {
    if r.status.InReview? || r.status.WaitingFinance? then Some(StepAt(r)) else None
  }

  function PersonOf(r: Request, step: Step): int {
    if step.UnitManager? then r.unitManager else r.siteManager
  }

  function StoredPersons(r: Request): map<Step, int> {
    map[UnitManager := r.unitManager, SiteManager := r.siteManager]
  }

  // ---------- reassigning approvers ----------

  /** Today's approvers of the person steps still to come. The unit manager is looked up again only when asked for or
      when the stored one can no longer approve. */
  function ApproversToday(w: World, r: Request, refresh: bool): map<Step, Option<int>> {
    (if Ahead(r.steps, r.stepIndex, SiteManager) then
       map[SiteManager := if w.siteManagerOf(r.site).Some? && w.usable(w.siteManagerOf(r.site).value)
                          then w.siteManagerOf(r.site) else None]
     else map[]) +
    (if Ahead(r.steps, r.stepIndex, UnitManager) && (refresh || !w.usable(r.unitManager)) then
       map[UnitManager := w.unitManagerOf(r.employee)]
     else map[])
  }

  function PlanFor(w: World, r: Request, refresh: bool): map<Step, int> {
    ReassignmentPlan(r.steps, r.stepIndex, StoredPersons(r), ApproversToday(w, r, refresh), r.employee)
  }

  /** One request of `reassign_requests`. `moving` says whether the current approver moves along with its step. */
  function ReassignOne(w: World, r: Request, refresh: bool, moving: bool): Request {
    var plan := PlanFor(w, r, refresh);
    if plan == map[] then r
    else
      var step := CurrentStep(r);
      r.(unitManager := if UnitManager in plan then plan[UnitManager] else r.unitManager,
         siteManager := if SiteManager in plan then plan[SiteManager] else r.siteManager,
         approver := if moving && step.Some? && step.value in plan then Some(plan[step.value]) else r.approver,
         log := r.log + [Entry(ApproverChanged, System)])
  }

  // ---------- entering a step ----------

  /** The request with an approver for `step` that is as good as the world offers. */
  function UsableApprover(w: World, r: Request, step: Step): Request {
    var changedSetting := step.SiteManager? && w.siteManagerOf(r.site).Some?
                          && w.siteManagerOf(r.site).value != r.siteManager;
    if !changedSetting && w.usable(PersonOf(r, step)) then r else ReassignOne(w, r, false, false)
  }

  function EnterStep(w: World, r: Request): Request {
    var step := StepAt(r);
    if step.Finance? then r.(status := WaitingFinance, approver := None)
    else
      var prepared := UsableApprover(w, r.(status := InReview), step);
      prepared.(approver := Some(PersonOf(prepared, step)))
  }

  // ---------- the operations on one row; None where the service refuses ----------

  /** A new row, before it enters its first step. */
  function Draft(site: int, employee: int, amount: int, today: JalaliDate, month: Month, unit: int, manager: int): Request {
    Request(site, employee, amount, today, month, EffectiveSteps(employee, Some(unit), Some(manager)), 0, unit, manager,
            None, InReview, None, [Entry(SubmittedBy, Person(employee))])
  }

  predicate ActsAsSubstitute(w: World, r: Request, employee: int) {
    && r.approver.Some? && r.approver.value != employee
    && r.employee != employee
    && w.substituteOf(r.site, r.approver.value) == Some(employee)
  }

  function ApproverDecides(w: World, r: Request, employee: int, approve: bool): Option<Request> {
    var step := CurrentStep(r);
    if step.None? || step.value.Finance? then None
    else if r.approver != Some(employee) && !ActsAsSubstitute(w, r, employee) then None
    else if approve then
      Some(EnterStep(w, r.(stepIndex := r.stepIndex + 1, log := r.log + [Entry(ApprovedBy, Person(employee))])))
    else
      Some(r.(status := Rejected, approver := None, log := r.log + [Entry(RejectedBy, Person(employee))]))
  }

  function FinanceDecides(r: Request, site: int, user: int, approve: bool): Option<Request> {
    if r.site != site || !r.status.WaitingFinance? then None
    else if approve then
      Some(r.(status := Approved, stepIndex := |r.steps|, log := r.log + [Entry(ApprovedBy, FinanceUnit(user))]))
    else
      Some(r.(status := Rejected, log := r.log + [Entry(RejectedBy, FinanceUnit(user))]))
  }

  function FinancePays(r: Request, site: int, user: int, date: string): Option<Request> {
    if r.site != site || !r.status.Approved? then None
    else Some(r.(status := Paid, paidOn := Some(date), log := r.log + [Entry(PaidBy, FinanceUnit(user))]))
  }

  function RequesterCancels(r: Request, employee: int): Option<Request> {
    if r.employee != employee || !(r.status.InReview? || r.status.WaitingFinance?) then None
    else Some(r.(status := Cancelled, approver := None, log := r.log + [Entry(CancelledBy, Person(employee))]))
  }

  function RequesterLeft(r: Request): Option<Request> {
    if !IsOpen(r.status) then None
    else Some(r.(status := Cancelled, approver := None, log := r.log + [Entry(CancelledBy, System)]))
  }

  /** `reassign_approvers` on a row it selects. */
  function Reassigned(w: World, r: Request, refresh: bool): Option<Request> {
    if r.status.InReview? then Some(ReassignOne(w, r, refresh, true)) else None
  }

  // ---------- the invariant ----------

  function Count(log: seq<Entry>, action: Action): nat {
    if log == [] then 0 else Count(log[..|log| - 1], action) + if log[|log| - 1].action == action then 1 else 0
  }

  /** The status that the log alone tells, for a route of `n` steps. */
  function LogStatus(log: seq<Entry>, n: nat): Status {
    if Count(log, CancelledBy) > 0 then Cancelled
    else if Count(log, RejectedBy) > 0 then Rejected
    else if Count(log, PaidBy) > 0 then Paid
    else if Count(log, ApprovedBy) + 1 < n then InReview
    else if Count(log, ApprovedBy) + 1 == n then WaitingFinance
    else Approved
  }

  predicate IsDecision(e: Entry) {
    e.action.ApprovedBy? || e.action.RejectedBy?
  }

  function Rank(r: Request): nat {
    if IsFinal(r.status) || r.stepIndex > |r.steps| then 0 else |r.steps| + 1 - r.stepIndex
  }

  /** Approvals, refusals and payments in the log. */
  function Decisions(log: seq<Entry>): nat {
    Count(log, ApprovedBy) + Count(log, RejectedBy) + Count(log, PaidBy)
  }

  /** What every row keeps, whatever is written over it. */
  ghost predicate Invariant(r: Request) {
    && Route(r.steps)
    && r.stepIndex <= |r.steps|
    && Count(r.log, ApprovedBy) == r.stepIndex
    && Count(r.log, SubmittedBy) == 1
    && r.status == LogStatus(r.log, |r.steps|)
    && (r.status.InReview? ==>
          r.stepIndex < |r.steps| - 1 && r.approver.Some? && r.approver.value != r.employee)
    && (r.status.WaitingFinance? ==> r.stepIndex == |r.steps| - 1)
    && (r.status.Approved? || r.status.Paid? ==> r.stepIndex == |r.steps|)
    && OthersDecide(r)
    && OthersIn(r.log, r.employee)
    && Decisions(r.log) + Rank(r) <= |r.steps| + 1
  }

  /** The current approver is the stored person of the current step, and nobody outside a review. */
  predicate Routed(r: Request) {
    if r.status.InReview? && r.stepIndex < |r.steps| then r.approver == Some(PersonOf(r, r.steps[r.stepIndex]))
    else r.approver == None
  }

  /** Refusals, payments and cancellations in the log. */
  function Closings(log: seq<Entry>): nat {
    Count(log, RejectedBy) + Count(log, PaidBy) + Count(log, CancelledBy)
  }

  predicate ClosedOnce(r: Request) {
    Closings(r.log) <= 1
  }

  /** No decision in the log is the requester's own. */
  predicate OthersIn(log: seq<Entry>, requester: int) {
    forall i :: 0 <= i < |log| && IsDecision(log[i]) ==> log[i].actor != Person(requester)
  }

  /** The stored persons of the route's steps are not the requester. */
  predicate OthersDecide(r: Request) {
    forall i :: 0 <= i < |r.steps| - 1 ==> PersonOf(r, r.steps[i]) != r.employee
  }

  /** What no operation touches. */
  predicate SameRequest(a: Request, b: Request) {
    && a.site == b.site && a.employee == b.employee && a.amount == b.amount
    && a.submittedOn == b.submittedOn && a.month == b.month && a.steps == b.steps
  }

  lemma {:induction false} CountSnoc(log: seq<Entry>, e: Entry)
    ensures forall a :: Count(log + [e], a) == Count(log, a) + if e.action == a then 1 else 0
  {
    assert (log + [e])[..|log|] == log;
  }

  lemma RouteShape(steps: seq<Step>, i: nat)
    requires Route(steps) && i < |steps|
    ensures steps[i].Finance? <==> i == |steps| - 1
    ensures forall j :: 0 <= j < |steps| && steps[j] == steps[i] ==> j == i
  {
  }

  // ---------- reassignment ----------

  /** A reassignment changes only the persons of steps still to come, never to the requester, and logs the change. */
  lemma ReassignChanges(w: World, r: Request, refresh: bool, moving: bool)
    ensures var s := ReassignOne(w, r, refresh, moving);
            && SameRequest(s, r) && s.stepIndex == r.stepIndex && s.status == r.status
            && (s == r || s.log == r.log + [Entry(ApproverChanged, System)])
            && (forall k: Step :: !k.Finance? && PersonOf(s, k) != PersonOf(r, k) ==>
                  Ahead(r.steps, r.stepIndex, k) && PersonOf(s, k) != r.employee)
  {
    hide Ahead;
  }

  /** The current approver moves along with its step. */
  lemma ReassignFollows(w: World, r: Request, refresh: bool)
    requires CurrentStep(r).Some? && !CurrentStep(r).value.Finance?
    requires r.approver == Some(PersonOf(r, CurrentStep(r).value))
    ensures var s := ReassignOne(w, r, refresh, true);
            s.approver == Some(PersonOf(s, CurrentStep(r).value))
  {
    hide Ahead, Changes;
  }

  /** A reassignment never makes the requester the current approver, nor leaves a review without one. */
  lemma ReassignMoves(w: World, r: Request, refresh: bool)
    ensures var s := ReassignOne(w, r, refresh, true);
            s.approver == r.approver || (s.approver.Some? && s.approver.value != r.employee)
  {
    hide Ahead;
  }

  lemma ReassignOthersDecide(w: World, r: Request, refresh: bool, moving: bool)
    requires Route(r.steps) && OthersDecide(r)
    ensures OthersDecide(ReassignOne(w, r, refresh, moving))
  {
    hide ReassignOne;
    ReassignChanges(w, r, refresh, moving);
  }

  /** The log grows by a bookkeeping entry; nothing that is counted changes. */
  lemma {:induction false} LogChanged(log: seq<Entry>, requester: int)
    ensures var more := log + [Entry(ApproverChanged, System)];
            && Count(more, ApprovedBy) == Count(log, ApprovedBy)
            && Count(more, SubmittedBy) == Count(log, SubmittedBy)
            && Decisions(more) == Decisions(log)
            && Closings(more) == Closings(log)
            && (forall n :: LogStatus(more, n) == LogStatus(log, n))
            && (OthersIn(log, requester) ==> OthersIn(more, requester))
  {
    CountSnoc(log, Entry(ApproverChanged, System));
  }

  lemma ReassignKeepsInvariant(w: World, r: Request, refresh: bool)
    requires Invariant(r) && r.status.InReview?
    ensures var s := ReassignOne(w, r, refresh, true);
            Invariant(s) && Rank(s) == Rank(r) && ClosedOnce(s) && (Routed(r) ==> Routed(s))
  {
    hide Count, LogStatus, ReassignOne, OthersDecide;
    RouteShape(r.steps, r.stepIndex);
    ReassignChanges(w, r, refresh, true);
    if Routed(r) {
      ReassignFollows(w, r, refresh);
    }
    ReassignMoves(w, r, refresh);
    ReassignOthersDecide(w, r, refresh, true);
    LogChanged(r.log, r.employee);
    OpenUncancelled(r);
  }

  lemma OpenUncancelled(r: Request)
    requires Invariant(r) && IsOpen(r.status)
    ensures Count(r.log, CancelledBy) == Count(r.log, RejectedBy) == Count(r.log, PaidBy) == 0
    ensures Closings(r.log) == 0
  {
    hide Count;
  }

  lemma CurrentDecider(r: Request)
    requires Route(r.steps) && OthersDecide(r) && r.stepIndex < |r.steps| - 1
    ensures PersonOf(r, r.steps[r.stepIndex]) != r.employee
  {
  }

  // ---------- entering a step ----------

  /** A row that has just been submitted or approved, before it enters its next step. */
  ghost predicate Between(r: Request) {
    && Route(r.steps) && r.stepIndex < |r.steps|
    && Count(r.log, ApprovedBy) == r.stepIndex
    && Count(r.log, SubmittedBy) == 1
    && Count(r.log, RejectedBy) == Count(r.log, CancelledBy) == Count(r.log, PaidBy) == 0
    && OthersDecide(r)
    && OthersIn(r.log, r.employee)
  }

  lemma EnterStepInvariant(w: World, r: Request)
    requires Between(r)
    ensures var s := EnterStep(w, r);
            && Invariant(s) && Routed(s) && ClosedOnce(s) && SameRequest(s, r) && s.stepIndex == r.stepIndex
            && (s.log == r.log || s.log == r.log + [Entry(ApproverChanged, System)])
            && s.status == (if r.stepIndex == |r.steps| - 1 then WaitingFinance else InReview)
  {
    hide Count, ReassignOne;
    RouteShape(r.steps, r.stepIndex);
    var step := StepAt(r);
    LogChanged(r.log, r.employee);
    if !step.Finance? {
      var review := r.(status := InReview);
      PreparedFacts(w, review, step);
      CurrentDecider(UsableApprover(w, review, step));
    }
  }

  lemma PreparedFacts(w: World, r: Request, step: Step)
    requires Route(r.steps) && OthersDecide(r)
    ensures var s := UsableApprover(w, r, step);
            && SameRequest(s, r) && s.stepIndex == r.stepIndex && s.status == r.status && OthersDecide(s)
            && (s == r || s.log == r.log + [Entry(ApproverChanged, System)])
  {
    hide ReassignOne;
    ReassignChanges(w, r, false, false);
    ReassignOthersDecide(w, r, false, false);
  }

  // ---------- every operation keeps the invariant ----------

  lemma SubmittedInvariant(
    w: World, site: int, employee: int, amount: int, today: JalaliDate, month: Month, unit: int, manager: int
  )
    ensures var s := EnterStep(w, Draft(site, employee, amount, today, month, unit, manager));
            Invariant(s) && Routed(s) && ClosedOnce(s)
  {
    hide EnterStep, Invariant;
    var draft := Draft(site, employee, amount, today, month, unit, manager);
    var none: seq<Entry> := [];
    CountSnoc(none, Entry(SubmittedBy, Person(employee)));
    assert draft.log == none + [Entry(SubmittedBy, Person(employee))];
    assert forall i :: 0 <= i < |draft.steps| - 1 ==> draft.steps[i] in draft.steps && !draft.steps[i].Finance?;
    EnterStepInvariant(w, draft);
  }

  lemma DecideInvariant(w: World, r: Request, employee: int, approve: bool)
    requires Invariant(r) && ApproverDecides(w, r, employee, approve).Some?
    ensures var s := ApproverDecides(w, r, employee, approve).value;
            && Invariant(s) && SameRequest(s, r) && Rank(s) < Rank(r) && r.stepIndex <= s.stepIndex && ClosedOnce(s)
            && Routed(s)
  {
    hide Count, EnterStep;
    OpenUncancelled(r);
    RouteShape(r.steps, if r.stepIndex < |r.steps| then r.stepIndex else |r.steps| - 1);
    assert employee != r.employee;
    if approve {
      CountSnoc(r.log, Entry(ApprovedBy, Person(employee)));
      EnterStepInvariant(w, r.(stepIndex := r.stepIndex + 1, log := r.log + [Entry(ApprovedBy, Person(employee))]));
    } else {
      CountSnoc(r.log, Entry(RejectedBy, Person(employee)));
    }
  }

  lemma FinanceInvariant(r: Request, site: int, user: int, approve: bool)
    requires Invariant(r) && FinanceDecides(r, site, user, approve).Some?
    ensures var s := FinanceDecides(r, site, user, approve).value;
            && Invariant(s) && SameRequest(s, r) && Rank(s) < Rank(r) && r.stepIndex <= s.stepIndex && ClosedOnce(s)
            && (Routed(r) ==> Routed(s))
  {
    hide Count;
    OpenUncancelled(r);
    CountSnoc(r.log, Entry(if approve then ApprovedBy else RejectedBy, FinanceUnit(user)));
  }

  lemma PayInvariant(r: Request, site: int, user: int, date: string)
    requires Invariant(r) && FinancePays(r, site, user, date).Some?
    ensures var s := FinancePays(r, site, user, date).value;
            && Invariant(s) && SameRequest(s, r) && Rank(s) < Rank(r) && r.stepIndex <= s.stepIndex && ClosedOnce(s)
            && (Routed(r) ==> Routed(s))
  {
    hide Count;
    OpenUncancelled(r);
    CountSnoc(r.log, Entry(PaidBy, FinanceUnit(user)));
  }

  lemma CancelInvariant(r: Request, employee: int)
    requires Invariant(r) && RequesterCancels(r, employee).Some?
    ensures var s := RequesterCancels(r, employee).value;
            && Invariant(s) && SameRequest(s, r) && Rank(s) < Rank(r) && r.stepIndex <= s.stepIndex && ClosedOnce(s)
            && (Routed(r) ==> Routed(s))
  {
    hide Count;
    OpenUncancelled(r);
    CountSnoc(r.log, Entry(CancelledBy, Person(employee)));
  }

  lemma LeftInvariant(r: Request)
    requires Invariant(r) && RequesterLeft(r).Some?
    ensures var s := RequesterLeft(r).value;
            && Invariant(s) && SameRequest(s, r) && Rank(s) < Rank(r) && r.stepIndex <= s.stepIndex && ClosedOnce(s)
            && (Routed(r) ==> Routed(s))
  {
    hide Count;
    OpenUncancelled(r);
    CountSnoc(r.log, Entry(CancelledBy, System));
  }

  // ---------- who may do what ----------

  /** On every reachable row: a person step is decided by the current approver, or by that person's active substitute when
      the substitute is not the requester. On a routed row the current approver is the stored person of the step. */
  lemma WhoDecides(w: World, r: Request, employee: int, approve: bool)
    requires Invariant(r)
    ensures ApproverDecides(w, r, employee, approve).Some? <==>
              && r.status.InReview?
              && (employee == r.approver.value
                  || (employee != r.employee && w.substituteOf(r.site, r.approver.value) == Some(employee)))
    ensures ApproverDecides(w, r, employee, approve).Some? ==> employee != r.employee
    ensures Routed(r) && r.status.InReview? ==> r.approver.value == PersonOf(r, r.steps[r.stepIndex])
  {
    hide Count, EnterStep, LogStatus;
    RouteShape(r.steps, if r.stepIndex < |r.steps| then r.stepIndex else |r.steps| - 1);
  }

  // ---------- one person, two approvals ----------

  /** The route asks two managers. */
  predicate TwoManagers(r: Request) {
    r.steps == [UnitManager, SiteManager, Finance]
  }

  /** The unit manager after a reassignment: the leave chain's answer, when it is asked for and is not the requester. */
  function NextUnitManager(w: World, r: Request, refresh: bool): int {
    if r.stepIndex == 0 && (refresh || !w.usable(r.unitManager))
       && w.unitManagerOf(r.employee).Some? && w.unitManagerOf(r.employee).value != r.employee
    then w.unitManagerOf(r.employee).value
    else r.unitManager
  }

  /** The site manager after a reassignment: the setting, when that person may approve and is not the requester. */
  function NextSiteManager(w: World, r: Request): int {
    if r.stepIndex <= 1 && w.siteManagerOf(r.site).Some? && w.usable(w.siteManagerOf(r.site).value)
       && w.siteManagerOf(r.site).value != r.employee
    then w.siteManagerOf(r.site).value
    else r.siteManager
  }

  /** The persons that a reassignment leaves, at either step, are these two. */
  lemma {:induction false} ReassignPersons(w: World, r: Request, refresh: bool, moving: bool)
    requires TwoManagers(r)
    ensures var s := ReassignOne(w, r, refresh, moving);
            s.unitManager == NextUnitManager(w, r, refresh) && s.siteManager == NextSiteManager(w, r)
  {
    assert r.steps[0] == UnitManager && r.steps[1] == SiteManager && r.steps[2] == Finance;
    assert Ahead(r.steps, r.stepIndex, UnitManager) <==> r.stepIndex == 0;
    assert Ahead(r.steps, r.stepIndex, SiteManager) <==> r.stepIndex <= 1;
    hide Ahead;
  }

  /** A reassignment leaves two different managers exactly when the answers do not bring both steps to one person. */
  lemma {:induction false} ReassignedDistinct(w: World, r: Request, refresh: bool, moving: bool)
    requires TwoManagers(r)
    ensures var s := ReassignOne(w, r, refresh, moving);
            s.unitManager != s.siteManager <==> NextUnitManager(w, r, refresh) != NextSiteManager(w, r)
  {
    ReassignPersons(w, r, refresh, moving);
  }

  /** Entering the second step after the first manager's approval leaves two different managers exactly when the setting
      has not become the first manager, still able to approve. */
  lemma {:induction false} EnteredDistinct(w: World, r: Request)
    requires TwoManagers(r) && r.stepIndex == 1 && r.unitManager != r.siteManager && r.unitManager != r.employee
    ensures var s := EnterStep(w, r);
            s.unitManager != s.siteManager <==>
              !(w.siteManagerOf(r.site) == Some(r.unitManager) && w.usable(r.unitManager))
  {
    hide ReassignOne;
    ReassignPersons(w, r.(status := InReview), false, false);
  }

  /** Entering the first step of a new request leaves two different managers exactly when the unit manager may approve, or
      the answers do not bring both steps to one person. */
  lemma {:induction false} SubmittedDistinct(w: World, r: Request)
    requires TwoManagers(r) && r.stepIndex == 0 && r.unitManager != r.siteManager
    ensures var s := EnterStep(w, r);
            s.unitManager != s.siteManager <==>
              w.usable(r.unitManager) || NextUnitManager(w, r, false) != NextSiteManager(w, r)
  {
    hide ReassignOne;
    ReassignPersons(w, r.(status := InReview), false, false);
  }
}
