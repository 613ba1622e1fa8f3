/** The service object (backend/app/services/advance_service.py). */
module AdvanceService {
  // Its table of requests is changed row by row in loops, and each call is one transaction. Bulk calls decide every
  // listed request on its own and report which ones were done.

  import opened Common
  import opened JalaliCalendar
  import opened AdvanceWindow
  import opened AdvanceRules
  import opened AdvanceRequests
  import opened AdvanceProtocol
  import opened AdvanceOutcomes
  import JalaliDates

  datatype Reason = Disabled | OutsideWindow | NoAmount | NoRange | HireMonth | CapReached | OpenRequest

  datatype ServiceError =
    | NotActive | ReasonMissing | NotFound | NotOwner | NotWaiting | BadDate
    | Blocked(reasons: seq<Reason>) | AmountRefused(error: AmountError) | NoUnitManager | NoSiteManager

  /** Which requests a bulk call changed, and which it refused, each in the order of the list. */
  datatype Outcome = Outcome(done: seq<nat>, failed: seq<nat>)

  /** The table when the rows of `handled` have been operated on. */
  function Partly(op: Op, table: Table, handled: set<nat>): Table {
    map id | id in table :: if id in handled then Next(op, id, table[id]) else table[id]
  }

  predicate Succeeds(op: Op, table: Table, id: nat) {
    id in table && Attempt(op, id, table[id]).Some?
  }

  /** The distinct ids of a list, by first occurrence, for which the operation succeeds, or fails. */
  function Those(op: Op, table: Table, ids: seq<nat>, success: bool): seq<nat> {
    if ids == [] then []
    else
      var front, last := ids[..|ids| - 1], ids[|ids| - 1];
      if last !in front && Succeeds(op, table, last) == success then Those(op, table, front, success) + [last]
      else Those(op, table, front, success)
  }

  function OutcomeOf(op: Op, table: Table, ids: seq<nat>): Outcome {
    Outcome(Those(op, table, ids, true), Those(op, table, ids, false))
  }

  /** Each listed id is reported exactly once, as done or as failed. */
  lemma {:induction false} ReportedOnce(op: Op, table: Table, ids: seq<nat>, success: bool)
    ensures forall id :: id in Those(op, table, ids, success) <==> id in ids && Succeeds(op, table, id) == success
    ensures forall i, j :: 0 <= i < j < |Those(op, table, ids, success)| ==>
              Those(op, table, ids, success)[i] != Those(op, table, ids, success)[j]
  {
    hide Succeeds;
    if ids != [] {
      var front := ids[..|ids| - 1];
      ReportedOnce(op, table, front, success);
      assert forall id :: id in ids <==> id in front || id == ids[|ids| - 1];
    }
  }

  /** Of two different listed ids the first occurs before the second does. */
  predicate Earlier(ids: seq<nat>, a: nat, b: nat) {
    exists k :: 0 <= k < |ids| && ids[k] == a && b !in ids[..k + 1]
  }

  /** The list holds the listed ids with or without the property, each once and in the order of the call. */
  ghost predicate Reports(list: seq<nat>, ids: seq<nat>, ready: set<nat>, success: bool) {
    && (forall id :: id in list <==> id in ids && (id in ready) == success)
    && InOrder(list, ids)
  }

  ghost predicate InOrder(list: seq<nat>, ids: seq<nat>) {
    forall i, j :: 0 <= i < j < |list| ==> Earlier(ids, list[i], list[j])
  }

  ghost predicate ReportsAll(outcome: Outcome, ids: seq<nat>, ready: set<nat>) {
    Reports(outcome.done, ids, ready, true) && Reports(outcome.failed, ids, ready, false)
  }

  lemma {:induction false} ReportedInOrder(op: Op, table: Table, ids: seq<nat>, success: bool)
    ensures InOrder(Those(op, table, ids, success), ids)
  {
    hide Succeeds, InOrder;
    if ids != [] {
      var front, last := ids[..|ids| - 1], ids[|ids| - 1];
      var before, list := Those(op, table, front, success), Those(op, table, ids, success);
      ReportedInOrder(op, table, front, success);
      ReportedOnce(op, table, front, success);
      assert front + [last] == ids;
      if list == before {
        OrderSnoc(before, front, last);
      } else {
        OrderAppend(before, front, last);
      }
    } else {
      NothingOrdered();
    }
  }

  lemma NothingOrdered()
    ensures InOrder([], [])
  {
  }

  lemma OrderSnoc(list: seq<nat>, ids: seq<nat>, last: nat)
    requires InOrder(list, ids)
    ensures InOrder(list, ids + [last])
  {
    hide Earlier;
    forall i, j | 0 <= i < j < |list|
      ensures Earlier(ids + [last], list[i], list[j])
    {
      EarlierSnoc(ids, last, list[i], list[j]);
    }
  }

  lemma OrderAppend(list: seq<nat>, ids: seq<nat>, last: nat)
    requires InOrder(list, ids) && last !in ids && forall id :: id in list ==> id in ids
    ensures InOrder(list + [last], ids + [last])
  {
    hide Earlier;
    var more := list + [last];
    forall i, j | 0 <= i < j < |more|
      ensures Earlier(ids + [last], more[i], more[j])
    {
      if j < |list| {
        EarlierSnoc(ids, last, list[i], list[j]);
      } else {
        assert list[i] in list;
        EarlierLast(ids, last, list[i]);
      }
    }
  }

  lemma EarlierSnoc(ids: seq<nat>, last: nat, a: nat, b: nat)
    requires Earlier(ids, a, b)
    ensures Earlier(ids + [last], a, b)
  {
    var k :| 0 <= k < |ids| && ids[k] == a && b !in ids[..k + 1];
    var more := ids + [last];
    assert more[k] == a && more[..k + 1] == ids[..k + 1];
  }

  lemma EarlierLast(ids: seq<nat>, last: nat, a: nat)
    requires a in ids && last !in ids
    ensures Earlier(ids + [last], a, last)
  {
    var k :| 0 <= k < |ids| && ids[k] == a;
    var more := ids + [last];
    assert more[k] == a && more[..k + 1] == ids[..k + 1];
  }

  lemma {:induction false} SideReports(op: Op, table: Table, ids: seq<nat>, ready: set<nat>, success: bool)
    requires forall id :: id in ids ==> (id in ready <==> Succeeds(op, table, id))
    ensures Reports(Those(op, table, ids, success), ids, ready, success)
  {
    hide Succeeds, InOrder, Those;
    ReportedOnce(op, table, ids, success);
    ReportedInOrder(op, table, ids, success);
  }

  /** The outcome of a call is told by the rows that are ready for it. */
  lemma {:induction false} OutcomeReports(op: Op, table: Table, ids: seq<nat>, ready: set<nat>)
    requires forall id :: id in ids ==> (id in ready <==> Succeeds(op, table, id))
    ensures ReportsAll(OutcomeOf(op, table, ids), ids, ready)
  {
    hide Succeeds, Reports, Those;
    SideReports(op, table, ids, ready, true);
    SideReports(op, table, ids, ready, false);
  }

  function Members(ids: seq<nat>): set<nat> {
    set id | id in ids
  }

  lemma PartlyAll(op: Op, table: Table, handled: set<nat>)
    requires forall id :: id in table && id !in handled ==> Attempt(op, id, table[id]) == None
    ensures Partly(op, table, handled) == NextTable(op, table)
  {
  }

  // ---------- what stands against a submission ----------

  /** The applicant: length of service in months and, if known, the date of hire. */
  datatype Applicant = Applicant(employee: int, site: int, active: bool, months: Option<int>, hired: Option<JalaliDate>)

  /** The site's settings; `tiers` are those of the applicant's group. */
  datatype Settings = Settings(
    enabled: bool, config: Config, tiers: seq<Tier>, rangeMode: bool, amountStep: Option<int>, blockHireMonth: bool)

  /** Hired in the current month or later. */
  predicate HiredThisMonth(a: Applicant, today: JalaliDate) {
    a.hired.Some? && !(a.hired.value.year < today.year
                       || (a.hired.value.year == today.year && a.hired.value.month < today.month))
  }

  /** Which findings stand against a submission of a site that takes part. */
  datatype Findings = Findings(outside: bool, noAmount: bool, noRange: bool, hireMonth: bool, cap: bool, open: bool)

  predicate Shows(f: Findings, reason: Reason) {
    match reason
    case Disabled => false
    case OutsideWindow => f.outside
    case NoAmount => f.noAmount
    case NoRange => f.noRange
    case HireMonth => f.hireMonth
    case CapReached => f.cap
    case OpenRequest => f.open
  }

  predicate Blocks(reason: Reason, table: Table, a: Applicant, st: Settings, today: JalaliDate, tier: Option<Tier>)
    requires st.amountStep.Some? ==> st.amountStep.value >= 0
  {
    var c := st.config;
    if !st.enabled then reason.Disabled?
    else
      match reason
      case Disabled => false
      case OutsideWindow => !InWindow(today.day, c.from, c.to)
      case NoAmount => tier.None?
      case NoRange => tier.Some? && st.rangeMode && AmountRange(tier.value, st.amountStep).None?
      case HireMonth => st.blockHireMonth && HiredThisMonth(a, today)
      case CapReached => |CountedOf(table, a.employee, RequestMonth(today, c.from, c.to))| >= c.maxPerMonth
      case OpenRequest => OpenOf(table, a.employee) != {}
  }

  /** Nothing stands against the submission. */
  ghost predicate Admitted(table: Table, w: World, a: Applicant, st: Settings, today: JalaliDate, asked: int)
    requires st.amountStep.Some? ==> st.amountStep.value >= 0
  {
    var tier := BestTier(a.months, st.tiers);
    && a.active
    && tier.Some?
    && (forall reason :: !Blocks(reason, table, a, st, today, tier))
    && (st.rangeMode ==> RequestedAmount(asked, tier.value, st.amountStep).Ok?)
    && w.unitManagerOf(a.employee).Some?
    && w.siteManagerOf(a.site).Some?
  }

  /** In the order of the overview, each once. */
  predicate Listed(reasons: seq<Reason>) {
    forall i, j :: 0 <= i < j < |reasons| ==> Place(reasons[i]) < Place(reasons[j])
  }

  function Place(reason: Reason): int {
    match reason
    case Disabled => 0
    case OutsideWindow => 1
    case NoAmount => 2
    case NoRange => 3
    case HireMonth => 4
    case CapReached => 5
    case OpenRequest => 6
  }

  /** The first thing that is wrong decides the error. */
  ghost predicate Refused(
    error: ServiceError, table: Table, w: World, a: Applicant, st: Settings, today: JalaliDate, asked: int
  )
    requires st.amountStep.Some? ==> st.amountStep.value >= 0
  {
    var tier := BestTier(a.months, st.tiers);
    var nothing := a.active && forall reason :: !Blocks(reason, table, a, st, today, tier);
    var amount := tier.Some? && (st.rangeMode ==> RequestedAmount(asked, tier.value, st.amountStep).Ok?);
    match error
    case NotActive => !a.active
    case Blocked(reasons) =>
      && a.active && reasons != [] && Listed(reasons)
      && forall reason :: reason in reasons <==> Blocks(reason, table, a, st, today, tier)
    case AmountRefused(e) =>
      nothing && tier.Some? && st.rangeMode && RequestedAmount(asked, tier.value, st.amountStep) == Err(e)
    case NoUnitManager => nothing && amount && w.unitManagerOf(a.employee).None?
    case NoSiteManager =>
      nothing && amount && w.unitManagerOf(a.employee).Some? && w.siteManagerOf(a.site).None?
    case _ => false
  }

  /** Read off the rows: the cap is among the reasons when as many requests of the month are neither rejected nor cancelled,
      the open request when one is neither paid, rejected nor cancelled. */
  ghost predicate StandAgainst(reasons: seq<Reason>, table: Table, a: Applicant, st: Settings, today: JalaliDate) {
    && (CapReached in reasons <==>
          st.enabled
          && |RowsCounting(table, a.employee, RequestMonth(today, st.config.from, st.config.to))| >= st.config.maxPerMonth)
    && (OpenRequest in reasons <==>
          st.enabled
          && exists id :: id in table && table[id].employee == a.employee
                          && table[id].status != Paid && table[id].status != Rejected && table[id].status != Cancelled)
  }

  lemma ReasonsRead(reasons: seq<Reason>, table: Table, a: Applicant, st: Settings, today: JalaliDate, tier: Option<Tier>)
    requires st.amountStep.Some? ==> st.amountStep.value >= 0
    requires forall reason :: reason in reasons <==> Blocks(reason, table, a, st, today, tier)
    ensures StandAgainst(reasons, table, a, st, today)
  {
    hide OpenOf, CountedOf, RowsCounting, RequestMonth, AmountRange;
    CountingExactly(table, a.employee, RequestMonth(today, st.config.from, st.config.to));
    OpenExactly(table, a.employee);
  }

  /** Listed, with places below the bound only. */
  predicate Below(reasons: seq<Reason>, bound: int) {
    Listed(reasons) && forall x :: x in reasons ==> Place(x) < bound
  }

  lemma NoneBelow()
    ensures Below([], Place(OutsideWindow))
  {
  }

  lemma {:induction false} OneMoreReason(reasons: seq<Reason>, reason: Reason, stands: bool)
    requires Below(reasons, Place(reason))
    ensures var more := reasons + If(stands, reason);
            Below(more, Place(reason) + 1) && forall x :: x in more <==> x in reasons || (stands && x == reason)
  {
    hide Place;
  }

  function If(stands: bool, reason: Reason): seq<Reason> {
    if stands then [reason] else []
  }

  /** The findings one after the other. */
  function ListOf(f: Findings): seq<Reason> {
    If(f.outside, OutsideWindow) + If(f.noAmount, NoAmount) + If(f.noRange, Reason.NoRange) + If(f.hireMonth, HireMonth)
    + If(f.cap, CapReached) + If(f.open, OpenRequest)
  }

  lemma FoundListed(f: Findings)
    ensures Listed(ListOf(f)) && forall reason :: reason in ListOf(f) <==> Shows(f, reason)
  {
    hide If, Listed, Below;
    NoneBelow();
    var none: seq<Reason> := [];
    var r1 := none + If(f.outside, OutsideWindow);
    OneMoreReason(none, OutsideWindow, f.outside);
    var r2 := r1 + If(f.noAmount, NoAmount);
    OneMoreReason(r1, NoAmount, f.noAmount);
    var r3 := r2 + If(f.noRange, Reason.NoRange);
    OneMoreReason(r2, Reason.NoRange, f.noRange);
    var r4 := r3 + If(f.hireMonth, HireMonth);
    OneMoreReason(r3, HireMonth, f.hireMonth);
    var r5 := r4 + If(f.cap, CapReached);
    OneMoreReason(r4, CapReached, f.cap);
    var r6 := r5 + If(f.open, OpenRequest);
    OneMoreReason(r5, OpenRequest, f.open);
    BelowListed(r6, Place(OpenRequest) + 1);
    assert r1 == If(f.outside, OutsideWindow);
    assert r6 == ListOf(f);
  }

  lemma BelowListed(reasons: seq<Reason>, bound: int)
    requires Below(reasons, bound)
    ensures Listed(reasons)
  {
  }

  lemma ShowsBlocks(
    table: Table, a: Applicant, st: Settings, today: JalaliDate, tier: Option<Tier>, found: Findings
  )
    requires st.amountStep.Some? ==> st.amountStep.value >= 0
    requires st.enabled
    requires var c := st.config;
             found == Findings(
               !InWindow(today.day, c.from, c.to), tier.None?,
               tier.Some? && st.rangeMode && AmountRange(tier.value, st.amountStep).None?,
               st.blockHireMonth && HiredThisMonth(a, today),
               |CountedOf(table, a.employee, RequestMonth(today, c.from, c.to))| >= c.maxPerMonth,
               OpenOf(table, a.employee) != {})
    ensures forall reason :: Shows(found, reason) <==> Blocks(reason, table, a, st, today, tier)
  {
    hide OpenOf, CountedOf, RequestMonth, AmountRange, InWindow, HiredThisMonth;
  }

  lemma NothingStands(table: Table, a: Applicant, st: Settings, today: JalaliDate, tier: Option<Tier>)
    requires st.amountStep.Some? ==> st.amountStep.value >= 0
    requires forall reason :: !Blocks(reason, table, a, st, today, tier)
    ensures tier.Some?
  {
    assert !Blocks(NoAmount, table, a, st, today, tier) && !Blocks(Disabled, table, a, st, today, tier);
  }

  /** Hired in a month that is not over: months compare by their number. */
  lemma HiredExactly(a: Applicant, today: JalaliDate)
    requires a.hired.Some? ==> 1 <= a.hired.value.month <= 12
    requires 1 <= today.month <= 12
    ensures HiredThisMonth(a, today) <==>
              a.hired.Some?
              && 12 * today.year + today.month <= 12 * a.hired.value.year + a.hired.value.month
  {
  }

  class Service {
    var table: Table

    constructor ()
      ensures table == map[]
    {
      table := map[];
    }

    /** Why the applicant cannot submit today, in the order in which the overview lists it. */
    method BlockReasons(a: Applicant, st: Settings, today: JalaliDate, tier: Option<Tier>) returns (reasons: seq<Reason>)
      requires st.amountStep.Some? ==> st.amountStep.value >= 0
      ensures forall reason :: reason in reasons <==> Blocks(reason, table, a, st, today, tier)
      ensures Listed(reasons)
    {
      if !st.enabled {
        return [Disabled];
      }
      hide OpenOf, CountedOf, RequestMonth, AmountRange, InWindow, HiredThisMonth, Shows, Listed;
      var c := st.config;
      var found := Findings(
        !InWindow(today.day, c.from, c.to), tier.None?,
        tier.Some? && st.rangeMode && AmountRange(tier.value, st.amountStep).None?,
        st.blockHireMonth && HiredThisMonth(a, today),
        |CountedOf(table, a.employee, RequestMonth(today, c.from, c.to))| >= c.maxPerMonth,
        OpenOf(table, a.employee) != {});
      hide ListOf, Blocks;
      reasons := ListOf(found);
      FoundListed(found);
      ShowsBlocks(table, a, st, today, tier, found);
    }

    /** A submission without interruption. A row is added exactly when nothing stands against it; it is the new row, in
        its first step, of an applicant without an open request and below the cap. */
    method Submit(w: World, a: Applicant, st: Settings, today: JalaliDate, asked: int, newId: nat)
      returns (r: Result<nat, ServiceError>)
      requires st.amountStep.Some? ==> st.amountStep.value >= 0
      requires newId !in table
      modifies this
      ensures r.Err? ==> table == old(table)
      ensures r.Ok? <==> Admitted(old(table), w, a, st, today, asked)
      ensures r.Err? ==> Refused(r.error, old(table), w, a, st, today, asked)
      ensures r.Err? && r.error.Blocked? ==> StandAgainst(r.error.reasons, old(table), a, st, today)
      ensures r.Ok? ==>
                && table.Keys == old(table).Keys + {r.value}
                && (forall id :: id in old(table) ==> table[id] == old(table)[id])
                && Filed(w, table[r.value], a.site, a.employee,
                     if st.rangeMode then asked else BestTier(a.months, st.tiers).value.amount, today,
                     RequestMonth(today, st.config.from, st.config.to),
                     w.unitManagerOf(a.employee).value, w.siteManagerOf(a.site).value)
      ensures r.Ok? ==>
                var amount := if st.rangeMode then asked else BestTier(a.months, st.tiers).value.amount;
                var month := RequestMonth(today, st.config.from, st.config.to);
                r.value == newId && table == old(table)[newId := EnterStep(w,
                  Draft(a.site, a.employee, amount, today, month,
                        w.unitManagerOf(a.employee).value, w.siteManagerOf(a.site).value))]
    {
      hide EnterStep, BestTier, RequestMonth, AmountRange, OpenOf, CountedOf, Blocks, StandAgainst, Filed;
      if !a.active {
        return Err(NotActive);
      }
      var tier := TierFor(a.months, st.tiers);
      var reasons := BlockReasons(a, st, today, tier);
      if reasons != [] {
        assert reasons[0] in reasons;
        ReasonsRead(reasons, table, a, st, today, tier);
        return Err(Blocked(reasons));
      }
      NothingStands(table, a, st, today, tier);
      var amount := tier.value.amount;
      if st.rangeMode {
        var requested := RequestedAmount(asked, tier.value, st.amountStep);
        if requested.Err? {
          return Err(AmountRefused(requested.error));
        }
        amount := requested.value;
      }
      var unit, manager := w.unitManagerOf(a.employee), w.siteManagerOf(a.site);
      if unit.None? {
        return Err(NoUnitManager);
      }
      if manager.None? {
        return Err(NoSiteManager);
      }
      var month := RequestMonth(today, st.config.from, st.config.to);
      var row := EnterStep(w, Draft(a.site, a.employee, amount, today, month, unit.value, manager.value));
      NewRequest(w, a.site, a.employee, amount, today, month, unit.value, manager.value);
      table := table[newId := row];
      r := Ok(newId);
    }

    /** One round of a bulk loop: load the row, try the operation, store the result. */
    method TryRow(op: Op, id: nat) returns (ok: bool)
      modifies this
      ensures ok == Succeeds(op, old(table), id)
      ensures table == if ok then old(table)[id := Next(op, id, old(table)[id])] else old(table)
    {
      ok := false;
      if id in table {
        var result := Attempt(op, id, table[id]);
        if result.Some? {
          table := table[id := result.value];
          ok := true;
        }
      }
    }

    /** The loop of every bulk call. Its operation must name the listed requests only. */
    method Bulk(op: Op, ids: seq<nat>) returns (outcome: Outcome)
      requires forall id, r :: id !in ids ==> Attempt(op, id, r) == None
      modifies this
      ensures table == NextTable(op, old(table))
      ensures outcome == OutcomeOf(op, old(table), ids)
    {
      hide Attempt, NextTable, Next, Succeeds, Partly, OutcomeOf, Members;
      outcome := Outcome([], []);
      ghost var before := table;
      NothingHandled(op, before);
      for i := 0 to |ids|
        invariant table == Partly(op, before, Members(ids[..i]))
        invariant outcome == OutcomeOf(op, before, ids[..i])
      {
        var id := ids[i];
        assert ids[..i + 1] == ids[..i] + [id];
        OneMore(op, before, ids[..i], id);
        if id !in ids[..i] {
          var ok := TryRow(op, id);
          outcome := if ok then outcome.(done := outcome.done + [id]) else outcome.(failed := outcome.failed + [id]);
        }
      }
      assert ids[..|ids|] == ids;
      BulkComplete(op, before, ids);
    }

    method ApproverDecide(w: World, employee: int, active: bool, ids: seq<nat>, approve: bool, reasonGiven: bool)
      returns (r: Result<Outcome, ServiceError>)
      modifies this
      ensures !active ==> r == Err(NotActive)
      ensures active && !approve && !reasonGiven ==> r == Err(ReasonMissing)
      ensures r.Err? ==> table == old(table)
      ensures active && (approve || reasonGiven) ==>
                var op := ApproverBatch(w, employee, Members(ids), approve);
                r.Ok? && table == NextTable(op, old(table)) && r.value == OutcomeOf(op, old(table), ids)
      ensures r.Ok? ==>
                && Answered(old(table), table, w, employee, ids, approve)
                && ReportsAll(r.value, ids, set id | id in old(table) && MayAnswer(w, old(table)[id], employee))
    {
      if !active {
        return Err(NotActive);
      }
      if !approve && !reasonGiven {
        return Err(ReasonMissing);
      }
      hide Attempt, NextTable, Answered, OutcomeOf, MayAnswer, ReportsAll;
      ghost var op, before := ApproverBatch(w, employee, Members(ids), approve), table;
      AnswerOutcome(w, before, employee, ids, Members(ids), approve);
      OutcomeReports(op, before, ids, set id | id in before && MayAnswer(w, before[id], employee));
      var outcome := Bulk(ApproverBatch(w, employee, Members(ids), approve), ids);
      r := Ok(outcome);
    }

    method FinanceDecide(site: int, user: int, ids: seq<nat>, approve: bool, reasonGiven: bool)
      returns (r: Result<Outcome, ServiceError>)
      modifies this
      ensures !approve && !reasonGiven ==> r == Err(ReasonMissing) && table == old(table)
      ensures approve || reasonGiven ==>
                var op := FinanceBatch(site, user, Members(ids), approve);
                r.Ok? && table == NextTable(op, old(table)) && r.value == OutcomeOf(op, old(table), ids)
      ensures r.Ok? ==>
                && FinanceAnswered(old(table), table, site, user, ids, approve)
                && ReportsAll(r.value, ids,
                     set id | id in old(table) && old(table)[id].site == site && old(table)[id].status == WaitingFinance)
    {
      if !approve && !reasonGiven {
        return Err(ReasonMissing);
      }
      hide Attempt, NextTable, FinanceAnswered, OutcomeOf, ReportsAll;
      ghost var op, before := FinanceBatch(site, user, Members(ids), approve), table;
      FinanceOutcome(before, site, user, ids, Members(ids), approve);
      OutcomeReports(op, before, ids, set id | id in before && before[id].site == site && before[id].status == WaitingFinance);
      var outcome := Bulk(FinanceBatch(site, user, Members(ids), approve), ids);
      r := Ok(outcome);
    }

    /** The payment date is the one entered, or today's. */
    method FinancePay(site: int, user: int, ids: seq<nat>, paidDate: string, today: JalaliDate)
      returns (r: Result<Outcome, ServiceError>)
      requires JalaliDates.Readable(today)
      modifies this
      ensures paidDate != "" && JalaliDates.ParseJalali(paidDate).None? ==> r == Err(BadDate) && table == old(table)
      ensures paidDate == "" || JalaliDates.ParseJalali(paidDate).Some? ==>
                var date := if paidDate == "" then today else JalaliDates.ParseJalali(paidDate).value;
                var op := PayBatch(site, user, Members(ids), JalaliDates.FormatJalali(date));
                r.Ok? && table == NextTable(op, old(table)) && r.value == OutcomeOf(op, old(table), ids)
                && FinancePaid(old(table), table, site, user, ids, JalaliDates.FormatJalali(date))
      ensures r.Ok? ==>
                ReportsAll(r.value, ids,
                  set id | id in old(table) && old(table)[id].site == site && old(table)[id].status == Approved)
    {
      hide JalaliDates.ParseJalali;
      hide JalaliDates.FormatJalali;
      var date := if paidDate == "" then Some(JalaliDates.FormatJalali(today)) else JalaliDates.NormalizeDate(paidDate);
      if date.None? {
        return Err(BadDate);
      }
      hide Attempt, NextTable, FinancePaid, OutcomeOf, ReportsAll;
      ghost var op, before := PayBatch(site, user, Members(ids), date.value), table;
      PayOutcome(before, site, user, ids, Members(ids), date.value);
      OutcomeReports(op, before, ids, set id | id in before && before[id].site == site && before[id].status == Approved);
      var outcome := Bulk(PayBatch(site, user, Members(ids), date.value), ids);
      r := Ok(outcome);
    }

    method Cancel(employee: int, id: nat) returns (r: Result<nat, ServiceError>)
      modifies this
      ensures table == NextTable(CancelOne(employee, id), old(table))
      ensures OwnCancelled(old(table), table, employee, id)
      ensures r == if id !in old(table) then Err(NotFound)
                   else if old(table)[id].employee != employee then Err(NotOwner)
                   else if !(old(table)[id].status.InReview? || old(table)[id].status.WaitingFinance?) then Err(NotWaiting)
                   else Ok(id)
    {
      ghost var op := CancelOne(employee, id);
      ghost var before := table;
      if id !in table {
        r := Err(NotFound);
      } else if table[id].employee != employee {
        r := Err(NotOwner);
      } else if !(table[id].status.InReview? || table[id].status.WaitingFinance?) {
        r := Err(NotWaiting);
      } else {
        var row := table[id];
        row := row.(status := Cancelled, approver := None, log := row.log + [Entry(CancelledBy, Person(employee))]);
        table := table[id := row];
        r := Ok(id);
      }
      assert table == Partly(op, before, {id});
      PartlyAll(op, before, {id});
      CancelOutcome(before, employee, id);
    }

    /** Walks all rows in any order and cancels the open ones of the employees who left. */
    method OnEmployeesLeft(employees: set<int>) returns (cancelled: nat)
      modifies this
      ensures table == NextTable(EmployeesLeft(employees), old(table))
      ensures LeaversCancelled(old(table), table, employees)
      ensures cancelled == |set id | id in old(table) && old(table)[id].employee in employees
                                     && old(table)[id].status != Paid && old(table)[id].status != Rejected
                                     && old(table)[id].status != Cancelled|
    {
      LeftOutcome(table, employees);
      assert SucceededIn(EmployeesLeft(employees), table, table.Keys)
          == set id | id in table && table[id].employee in employees
                      && table[id].status != Paid && table[id].status != Rejected && table[id].status != Cancelled;
      cancelled := EachRow(EmployeesLeft(employees));
    }

    /** One round of the reassignment loop: does the row differ, and is its approver still unable to approve? */
    method ReassignRow(w: World, only: Option<int>, approvers: set<int>, refresh: bool, id: nat)
      returns (differs: bool, stuck: bool)
      requires id in table
      modifies this
      ensures var row := Next(ReassignAll(w, only, approvers, refresh), id, old(table)[id]);
              && table == old(table)[id := row]
              && differs == (row != old(table)[id])
              && stuck == Stuck(w, only, approvers, refresh, old(table)[id])
    {
      hide ReassignOne, Selected;
      differs, stuck := false, false;
      var row := table[id];
      if row.status.InReview? && Selected(row, only, approvers) {
        var next := ReassignOne(w, row, refresh, true);
        table := table[id := next];
        differs := next != row;
        stuck := HasPersonAhead(row) && Unresolved(w, next);
      }
    }

    /** The new approvers of all selected requests under review; the results are the number of rows that differ and of rows
        whose approver cannot approve all the same. */
    method ReassignApprovers(w: World, only: Option<int>, approvers: set<int>, refresh: bool)
      returns (changed: nat, unresolved: nat)
      modifies this
      ensures table == NextTable(ReassignAll(w, only, approvers, refresh), old(table))
      ensures AllReassigned(old(table), table, w, only, approvers, refresh)
      ensures changed == |ChangedIn(old(table), table, old(table).Keys)|
      ensures unresolved == |StuckIn(w, only, approvers, refresh, old(table), old(table).Keys)|
    {
      hide Partly, ChangedIn, NextTable, Next, Stuck, StuckIn, AllReassigned;
      ReassignOutcome(w, table, only, approvers, refresh);
      ghost var op := ReassignAll(w, only, approvers, refresh);
      ghost var before := table;
      NothingHandled(op, before);
      NoneStuck(w, only, approvers, refresh, before);
      changed, unresolved := 0, 0;
      var todo := table.Keys;
      ghost var handled: set<nat> := {};
      while todo != {}
        invariant handled + todo == before.Keys && handled !! todo
        invariant table == Partly(op, before, handled)
        invariant changed == |ChangedIn(before, table, handled)|
        invariant unresolved == |StuckIn(w, only, approvers, refresh, before, handled)|
        decreases todo
      {
        var id :| id in todo;
        todo := todo - {id};
        RowChanged(op, before, handled, id);
        StuckMore(w, only, approvers, refresh, before, handled, id);
        var differs, stuck := ReassignRow(w, only, approvers, refresh, id);
        if differs {
          changed := changed + 1;
        }
        if stuck {
          unresolved := unresolved + 1;
        }
        handled := handled + {id};
      }
      AllHandled(op, before, handled);
    }

    /** The loop of a call that goes through all rows. */
    method EachRow(op: Op) returns (count: nat)
      modifies this
      ensures table == NextTable(op, old(table))
      ensures count == |SucceededIn(op, old(table), old(table).Keys)|
    {
      hide Attempt, NextTable, Next, Succeeds, Partly, SucceededIn;
      ghost var before := table;
      NothingHandled(op, before);
      count := 0;
      var todo := table.Keys;
      ghost var handled: set<nat> := {};
      while todo != {}
        invariant handled + todo == before.Keys && handled !! todo
        invariant table == Partly(op, before, handled)
        invariant count == |SucceededIn(op, before, handled)|
        decreases todo
      {
        var id :| id in todo;
        todo := todo - {id};
        FreshRow(op, before, handled, id);
        SucceededMore(op, before, handled, id);
        var ok := TryRow(op, id);
        if ok {
          count := count + 1;
        }
        handled := handled + {id};
      }
      AllHandled(op, before, handled);
    }
  }

  // ---------- the loops ----------

  function SucceededIn(op: Op, before: Table, handled: set<nat>): set<nat> {
    set id | id in handled && Succeeds(op, before, id)
  }

  function ChangedIn(before: Table, after: Table, handled: set<nat>): set<nat> {
    set id | id in handled && Differs(before, after, id)
  }

  /** Some step with a person is still to come. */
  predicate HasPersonAhead(r: Request) {
    Ahead(r.steps, r.stepIndex, UnitManager) || Ahead(r.steps, r.stepIndex, SiteManager)
  }

  /** The request stands at a step with a person, and its current approver cannot approve. */
  predicate Unresolved(w: World, r: Request) {
    && CurrentStep(r).Some? && !CurrentStep(r).value.Finance?
    && !(r.approver.Some? && w.usable(r.approver.value))
  }

  /** The reassignment selects the row and leaves it with an approver who cannot approve. */
  predicate Stuck(w: World, only: Option<int>, approvers: set<int>, refresh: bool, r: Request) {
    && r.status.InReview? && Selected(r, only, approvers)
    && HasPersonAhead(r) && Unresolved(w, ReassignOne(w, r, refresh, true))
  }

  function StuckIn(
    w: World, only: Option<int>, approvers: set<int>, refresh: bool, before: Table, handled: set<nat>
  ): set<nat> {
    set id | id in handled && id in before && Stuck(w, only, approvers, refresh, before[id])
  }

  lemma NoneStuck(w: World, only: Option<int>, approvers: set<int>, refresh: bool, before: Table)
    ensures StuckIn(w, only, approvers, refresh, before, {}) == {}
  {
  }

  lemma StuckMore(
    w: World, only: Option<int>, approvers: set<int>, refresh: bool, before: Table, handled: set<nat>, id: nat
  )
    requires id !in handled && id in before
    ensures |StuckIn(w, only, approvers, refresh, before, handled + {id})|
         == |StuckIn(w, only, approvers, refresh, before, handled)|
            + if Stuck(w, only, approvers, refresh, before[id]) then 1 else 0
  {
    hide Stuck;
    var was, now := StuckIn(w, only, approvers, refresh, before, handled),
                    StuckIn(w, only, approvers, refresh, before, handled + {id});
    if Stuck(w, only, approvers, refresh, before[id]) {
      assert now == was + {id};
    } else {
      assert now == was;
    }
  }

  /** A reassignment leaves a reachable row unresolved exactly when the approver that it ends up with cannot approve: on a
      routed row, the person that it ends up with for the current step. */
  lemma {:induction false} StuckExactly(w: World, r: Request, refresh: bool)
    requires Invariant(r) && r.status.InReview?
    ensures var s := ReassignOne(w, r, refresh, true);
            && HasPersonAhead(r) && s.approver.Some?
            && (Unresolved(w, s) <==> !w.usable(s.approver.value))
            && (Routed(r) ==> s.approver.value == PersonOf(s, r.steps[r.stepIndex]))
  {
    hide ReassignOne, Count, LogStatus, Rank, OthersDecide;
    RouteShape(r.steps, r.stepIndex);
    ReassignChanges(w, r, refresh, true);
    ReassignMoves(w, r, refresh);
    if Routed(r) {
      ReassignFollows(w, r, refresh);
    }
    assert Ahead(r.steps, r.stepIndex, r.steps[r.stepIndex]);
  }

  predicate Differs(before: Table, after: Table, id: nat) {
    id in before && id in after && after[id] != before[id]
  }

  lemma NothingHandled(op: Op, before: Table)
    ensures Partly(op, before, {}) == before && Members([]) == {}
    ensures OutcomeOf(op, before, []) == Outcome([], [])
    ensures SucceededIn(op, before, {}) == {} && ChangedIn(before, before, {}) == {}
  {
    hide Next, Succeeds;
  }

  /** Operating on a row that has not been handled yet. */
  lemma FreshRow(op: Op, before: Table, handled: set<nat>, id: nat)
    requires id !in handled
    ensures var now := Partly(op, before, handled);
            && Succeeds(op, now, id) == Succeeds(op, before, id)
            && Partly(op, before, handled + {id})
               == (if Succeeds(op, now, id) then now[id := Next(op, id, now[id])] else now)
  {
    hide Attempt;
  }

  lemma SucceededMore(op: Op, before: Table, handled: set<nat>, id: nat)
    requires id !in handled
    ensures |SucceededIn(op, before, handled + {id})|
         == |SucceededIn(op, before, handled)| + if Succeeds(op, before, id) then 1 else 0
  {
    hide Succeeds;
    assert SucceededIn(op, before, handled + {id})
        == SucceededIn(op, before, handled) + if Succeeds(op, before, id) then {id} else {};
  }

  lemma RowChanged(op: Op, before: Table, handled: set<nat>, id: nat)
    requires id !in handled && id in before
    ensures var now := Partly(op, before, handled);
            && now.Keys == before.Keys && now[id] == before[id]
            && Partly(op, before, handled + {id}) == now[id := Next(op, id, now[id])]
            && |ChangedIn(before, now[id := Next(op, id, now[id])], handled + {id})|
               == |ChangedIn(before, now, handled)| + if Next(op, id, now[id]) != now[id] then 1 else 0
  {
    hide Next;
    var now := Partly(op, before, handled);
    assert Partly(op, before, handled + {id}) == now[id := Next(op, id, now[id])];
    hide Partly;
    ChangedMore(before, now, handled, id, Next(op, id, now[id]));
  }

  lemma ChangedMore(before: Table, now: Table, handled: set<nat>, id: nat, row: Request)
    requires id !in handled && id in before && id in now && now[id] == before[id]
    ensures |ChangedIn(before, now[id := row], handled + {id})|
         == |ChangedIn(before, now, handled)| + if row != now[id] then 1 else 0
  {
    var later := now[id := row];
    assert forall k :: k in handled ==> Differs(before, later, k) == Differs(before, now, k);
    assert Differs(before, later, id) == (row != now[id]);
    hide Differs;
    assert ChangedIn(before, later, handled + {id})
        == ChangedIn(before, now, handled) + if Differs(before, later, id) then {id} else {};
  }

  lemma AllHandled(op: Op, before: Table, handled: set<nat>)
    requires handled == before.Keys
    ensures Partly(op, before, handled) == NextTable(op, before)
  {
    hide Next;
  }

  lemma BulkComplete(op: Op, before: Table, ids: seq<nat>)
    requires forall id, r :: id !in ids ==> Attempt(op, id, r) == None
    ensures Partly(op, before, Members(ids)) == NextTable(op, before)
  {
    hide Attempt;
    PartlyAll(op, before, Members(ids));
  }

  /** One more id of the list: a repeated one is skipped, a new one goes to the end of its side. */
  lemma OneMore(op: Op, before: Table, ids: seq<nat>, id: nat)
    ensures id in ids ==>
              Members(ids + [id]) == Members(ids) && OutcomeOf(op, before, ids + [id]) == OutcomeOf(op, before, ids)
    ensures id !in ids ==>
              var now, outcome := Partly(op, before, Members(ids)), OutcomeOf(op, before, ids);
              && Partly(op, before, Members(ids + [id]))
                 == (if Succeeds(op, now, id) then now[id := Next(op, id, now[id])] else now)
              && OutcomeOf(op, before, ids + [id])
                 == (if Succeeds(op, now, id) then outcome.(done := outcome.done + [id])
                     else outcome.(failed := outcome.failed + [id]))
  {
    MembersSnoc(ids, id);
    hide Succeeds, Next, Partly, Members;
    assert (ids + [id])[..|ids|] == ids;
    if id !in ids {
      FreshRow(op, before, Members(ids), id);
    }
  }

  lemma MembersSnoc(ids: seq<nat>, id: nat)
    ensures Members(ids + [id]) == Members(ids) + {id}
    ensures id in ids <==> id in Members(ids)
    ensures id in ids ==> Members(ids + [id]) == Members(ids)
  {
    var more := ids + [id];
    assert forall k :: k in more <==> k in ids || k == id;
  }

  /** The uninterrupted submission is what the four database steps of the protocol do when nothing comes between. */
  lemma SubmissionFollowsProtocol(
    cfg: int -> Config, s: Portal, session: int, w: World, a: Applicant, st: Settings, today: JalaliDate, asked: int,
    amount: int, newId: nat
  )
    requires st.amountStep.Some? ==> st.amountStep.value >= 0
    requires Admitted(s.table, w, a, st, today, asked)
    requires cfg(a.employee) == st.config && RealDate(today)
    requires PhaseOf(s, session).Idle? && a.employee !in s.lock && newId !in s.table
    ensures var unit, manager := w.unitManagerOf(a.employee).value, w.siteManagerOf(a.site).value;
            var s1 := After(cfg, s, LockEmployee(session, a.employee));
            var s2 := After(cfg, s1, CountMonth(session, today));
            var s3 := After(cfg, s2, CheckOpen(session));
            var s4 := After(cfg, s3, Insert(session, w, newId, a.site, amount, unit, manager));
            && s4.table == s.table[newId := EnterStep(w, Draft(a.site, a.employee, amount, today,
                             RequestMonth(today, st.config.from, st.config.to), unit, manager))]
            && s4.lock == s.lock && PhaseOf(s4, session).Idle?
  {
    hide EnterStep, Draft, BestTier, RequestMonth, AmountRange, OpenOf, CountedOf, RealDate, InWindow;
    var tier := BestTier(a.months, st.tiers);
    assert !Blocks(Disabled, s.table, a, st, today, tier);
    assert !Blocks(OutsideWindow, s.table, a, st, today, tier);
    assert !Blocks(CapReached, s.table, a, st, today, tier);
    assert !Blocks(OpenRequest, s.table, a, st, today, tier);
  }
}
