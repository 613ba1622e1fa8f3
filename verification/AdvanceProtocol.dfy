/** All requests, interleaved (backend/app/services/advance_service.py). */
module AdvanceProtocol {
  // A submission takes several database steps: it locks the employee row, counts the requests of the month, looks for
  // an open request, and inserts. The cancellation of leavers' requests and the reassignment of approvers take two:
  // they read the rows they select without a lock, and later write the columns that they changed, whatever the rows
  // hold by then. Any number of sessions run such calls at once, with every other operation in between. Each other
  // operation is one transaction that locks each row it changes; a bulk call may be read as one operation for each of
  // its rows. The window and the monthly cap are fixed.

  import opened Common
  import opened JalaliCalendar
  import opened Months
  import opened AdvanceWindow
  import opened AdvanceRules
  import opened AdvanceRequests

  type Table = map<nat, Request>

  /** Window and cap in force for an employee. */
  datatype Config = Config(from: int, to: int, maxPerMonth: nat)

  /** How far a session's submission has come. */
  datatype Phase =
    | Idle
    | Locked(employee: int)
    | Counted(employee: int, today: JalaliDate)
    | Clear(employee: int, today: JalaliDate)

  /** A row as an unlocked call read it, and as the call is going to leave it. */
  datatype Change = Change(read: Request, next: Request)

  /** `lock` maps a locked employee row to the session that holds it, `pending` a session to what it has yet to write. */
  datatype Portal = Portal(
    table: Table, lock: map<int, int>, phase: map<int, Phase>, pending: map<int, map<nat, Change>>)

  const EMPTY := Portal(map[], map[], map[], map[])

  datatype Op =
    | LockEmployee(session: int, employee: int)
    | CountMonth(session: int, today: JalaliDate)
    | CheckOpen(session: int)
    | Insert(session: int, w: World, id: nat, site: int, amount: int, unit: int, manager: int)
    | GiveUp(session: int)
    | ApproverBatch(w: World, employee: int, ids: set<nat>, approve: bool)
    | FinanceBatch(site: int, user: int, ids: set<nat>, approve: bool)
    | PayBatch(site: int, user: int, ids: set<nat>, date: string)
    | CancelOne(employee: int, id: nat)
    | EmployeesLeft(employees: set<int>)
    | ReassignAll(w: World, only: Option<int>, approvers: set<int>, refresh: bool)
    | ReadRows(session: int, call: Op)
    | WriteRows(session: int)

  predicate IsSubmission(op: Op) {
    op.LockEmployee? || op.CountMonth? || op.CheckOpen? || op.Insert? || op.GiveUp?
  }

  // ---------- the effect on one row ----------

  predicate Selected(r: Request, site: Option<int>, approvers: set<int>) {
    && (site.Some? ==> r.site == site.value)
    && (approvers != {} ==> r.unitManager in approvers || r.siteManager in approvers)
  }

  function Attempt(op: Op, id: nat, r: Request): Option<Request> {
    match op
    case ApproverBatch(w, employee, ids, approve) => if id in ids then ApproverDecides(w, r, employee, approve) else None
    case FinanceBatch(site, user, ids, approve) => if id in ids then FinanceDecides(r, site, user, approve) else None
    case PayBatch(site, user, ids, date) => if id in ids then FinancePays(r, site, user, date) else None
    case CancelOne(employee, target) => if id == target then RequesterCancels(r, employee) else None
    case EmployeesLeft(employees) => if r.employee in employees then RequesterLeft(r) else None
    case ReassignAll(w, only, approvers, refresh) =>
      if Selected(r, only, approvers) then Reassigned(w, r, refresh) else None
    case _ => None
  }

  function Next(op: Op, id: nat, r: Request): Request {
    match Attempt(op, id, r)
    case None => r
    case Some(s) => s
  }

  function NextTable(op: Op, table: Table): Table {
    map id | id in table :: Next(op, id, table[id])
  }

  // ---------- calls that read without a lock ----------

  predicate Unlocked(op: Op) {
    op.EmployeesLeft? || op.ReassignAll?
  }

  /** What the call is going to change, from the rows as it reads them. */
  function ChangesOf(call: Op, table: Table): map<nat, Change> {
    map id | id in table && Attempt(call, id, table[id]).Some? :: Change(table[id], Attempt(call, id, table[id]).value)
  }

  /** The row when the changed columns are written over what it holds now; events are added. */
  function Overwritten(c: Change, now: Request): Request {
    now.(unitManager := if c.next.unitManager != c.read.unitManager then c.next.unitManager else now.unitManager,
         siteManager := if c.next.siteManager != c.read.siteManager then c.next.siteManager else now.siteManager,
         approver := if c.next.approver != c.read.approver then c.next.approver else now.approver,
         status := if c.next.status != c.read.status then c.next.status else now.status,
         log := now.log + NewEvents(c))
  }

  function NewEvents(c: Change): seq<Entry> {
    if |c.read.log| <= |c.next.log| then c.next.log[|c.read.log|..] else []
  }

  function WrittenTable(changes: map<nat, Change>, table: Table): Table {
    map id | id in table :: if id in changes then Overwritten(changes[id], table[id]) else table[id]
  }

  function PendingOf(s: Portal, session: int): map<nat, Change> {
    if session in s.pending then s.pending[session] else map[]
  }

  // ---------- counting ----------

  function OpenOf(table: Table, employee: int): set<nat> {
    set id | id in table && table[id].employee == employee && IsOpen(table[id].status)
  }

  function CountedOf(table: Table, employee: int, month: Month): set<nat> {
    set id | id in table && table[id].employee == employee && table[id].month == month && IsCounted(table[id].status)
  }

  // ---------- one step of the system ----------

  function PhaseOf(s: Portal, session: int): Phase {
    if session in s.phase then s.phase[session] else Idle
  }

  /** The end of a submission, committed or rolled back: the employee row is free again. */
  function Release(s: Portal, session: int): Portal {
    var p := PhaseOf(s, session);
    if p.Idle? then s else s.(lock := s.lock - {p.employee}, phase := s.phase[session := Idle])
  }

  function After(cfg: int -> Config, s: Portal, op: Op): Portal {
    match op
    case LockEmployee(session, employee) =>
      if PhaseOf(s, session).Idle? && employee !in s.lock then
        s.(lock := s.lock[employee := session], phase := s.phase[session := Locked(employee)])
      else s
    case CountMonth(session, today) =>
      var p := PhaseOf(s, session);
      if !p.Locked? || !RealDate(today) then s
      else
        var c := cfg(p.employee);
        if InWindow(today.day, c.from, c.to)
           && |CountedOf(s.table, p.employee, RequestMonth(today, c.from, c.to))| < c.maxPerMonth
        then s.(phase := s.phase[session := Counted(p.employee, today)])
        else Release(s, session)
    case CheckOpen(session) =>
      var p := PhaseOf(s, session);
      if !p.Counted? then s
      else if OpenOf(s.table, p.employee) == {} then s.(phase := s.phase[session := Clear(p.employee, p.today)])
      else Release(s, session)
    case Insert(session, w, id, site, amount, unit, manager) =>
      var p := PhaseOf(s, session);
      if !p.Clear? || id in s.table then s
      else
        var c := cfg(p.employee);
        var month := RequestMonth(p.today, c.from, c.to);
        var row := EnterStep(w, Draft(site, p.employee, amount, p.today, month, unit, manager));
        Release(s.(table := s.table[id := row]), session)
    case GiveUp(session) => Release(s, session)
    case ReadRows(session, call) =>
      if Unlocked(call) && session !in s.pending then s.(pending := s.pending[session := ChangesOf(call, s.table)]) else s
    case WriteRows(session) =>
      s.(table := WrittenTable(PendingOf(s, session), s.table), pending := s.pending - {session})
    case _ => s.(table := NextTable(op, s.table))
  }

  function Run(cfg: int -> Config, ops: seq<Op>): Portal {
    if ops == [] then EMPTY else After(cfg, Run(cfg, ops[..|ops| - 1]), ops[|ops| - 1])
  }

  // ---------- what an operation does to a row ----------

  /** From one state of a row to a later one: the same request, no reopening, a log that only grows, final means final. */
  ghost predicate Later(r: Request, n: Request) {
    && SameRequest(n, r)
    && (IsOpen(n.status) ==> IsOpen(r.status))
    && (IsCounted(n.status) ==> IsCounted(r.status))
    && (IsFinal(r.status) ==> n == r)
    && r.log <= n.log
    && Rank(n) <= Rank(r)
    && r.stepIndex <= n.stepIndex
  }

  lemma LaterTransitive(a: Request, b: Request, c: Request)
    requires Later(a, b) && Later(b, c)
    ensures Later(a, c)
  {
  }

  lemma AttemptLater(op: Op, id: nat, r: Request)
    requires Invariant(r) && Attempt(op, id, r).Some?
    ensures var s := Attempt(op, id, r).value;
            Invariant(s) && Later(r, s) && ClosedOnce(s) && (Routed(r) ==> Routed(s))
  {
    hide Invariant, EnterStep, ReassignOne, Rank, Routed, ClosedOnce;
    match op
    case ApproverBatch(w, employee, ids, approve) =>
      DecideInvariant(w, r, employee, approve);
      DecideLater(w, r, employee, approve);
    case FinanceBatch(site, user, ids, approve) => FinanceInvariant(r, site, user, approve);
    case PayBatch(site, user, ids, date) => PayInvariant(r, site, user, date);
    case CancelOne(employee, target) => CancelInvariant(r, employee);
    case EmployeesLeft(employees) => LeftInvariant(r);
    case ReassignAll(w, only, approvers, refresh) =>
      ReassignKeepsInvariant(w, r, refresh);
      ReassignChanges(w, r, refresh, true);
    case _ =>
  }

  lemma DecideLater(w: World, r: Request, employee: int, approve: bool)
    requires Invariant(r) && ApproverDecides(w, r, employee, approve).Some?
    ensures var s := ApproverDecides(w, r, employee, approve).value;
            r.log <= s.log && (IsOpen(s.status) || s.status.Rejected?) && IsOpen(r.status)
  {
    hide Count, EnterStep, LogStatus;
    WhoDecides(w, r, employee, approve);
    if approve {
      var e := Entry(ApprovedBy, Person(employee));
      CountSnoc(r.log, e);
      OpenUncancelled(r);
      EnterStepInvariant(w, r.(stepIndex := r.stepIndex + 1, log := r.log + [e]));
    }
  }

  // ---------- the invariant of the whole system ----------

  /** The row was submitted on a day of the window and counts for that day's month. */
  predicate Dated(cfg: int -> Config, r: Request) {
    var c := cfg(r.employee);
    && RealDate(r.submittedOn)
    && InWindow(r.submittedOn.day, c.from, c.to)
    && r.month == RequestMonth(r.submittedOn, c.from, c.to)
  }

  ghost predicate RowsOk(table: Table) {
    forall id :: id in table ==> Invariant(table[id])
  }

  ghost predicate DatesOk(cfg: int -> Config, table: Table) {
    forall id :: id in table ==> Dated(cfg, table[id])
  }

  /** What is yet to be written changes no request into another, and no status but to cancelled. */
  ghost predicate PendingOk(s: Portal) {
    forall t, id :: t in s.pending && id in s.pending[t] ==> Harmless(s.pending[t][id])
  }

  predicate Harmless(c: Change) {
    SameRequest(c.next, c.read) && c.read.log <= c.next.log && (c.next.status == c.read.status || c.next.status.Cancelled?)
  }

  /** A locked employee row is held by the one session whose submission is about that employee. */
  ghost predicate LocksOk(s: Portal) {
    && (forall e :: e in s.lock ==> !PhaseOf(s, s.lock[e]).Idle? && PhaseOf(s, s.lock[e]).employee == e)
    && (forall t :: t in s.phase && !s.phase[t].Idle? ==>
          s.phase[t].employee in s.lock && s.lock[s.phase[t].employee] == t)
  }

  ghost predicate CapsOk(cfg: int -> Config, table: Table) {
    && (forall e :: |OpenOf(table, e)| <= 1)
    && (forall e, m :: |CountedOf(table, e, m)| <= cfg(e).maxPerMonth)
  }

  /** What a submission has found holds until it inserts. */
  ghost predicate Found(cfg: int -> Config, table: Table, p: Phase) {
    && (p.Counted? || p.Clear? ==>
          var c := cfg(p.employee);
          && RealDate(p.today) && InWindow(p.today.day, c.from, c.to)
          && |CountedOf(table, p.employee, RequestMonth(p.today, c.from, c.to))| < c.maxPerMonth)
    && (p.Clear? ==> OpenOf(table, p.employee) == {})
  }

  ghost predicate FoundOk(cfg: int -> Config, s: Portal) {
    forall t :: t in s.phase ==> Found(cfg, s.table, s.phase[t])
  }

  /** What holds in every run: dates, locks, caps and pending findings. */
  ghost predicate CountsOk(cfg: int -> Config, s: Portal) {
    DatesOk(cfg, s.table) && LocksOk(s) && CapsOk(cfg, s.table) && FoundOk(cfg, s) && PendingOk(s)
  }

  /** What the call read of the row is the same request at the same or an earlier step, and the call is careful. */
  ghost predicate Follows(c: Change, now: Request) {
    SameRequest(now, c.read) && c.read.stepIndex <= now.stepIndex && ChangeOk(c)
  }

  /** What the call is going to leave of the row is what its transaction would have left of it when it was read. */
  ghost predicate ChangeOk(c: Change) {
    && Invariant(c.read) && Invariant(c.next) && Later(c.read, c.next)
    && Overwritten(c, c.read) == c.next && Careful(c)
    && ClosedOnce(c.next) && (Routed(c.read) ==> Routed(c.next))
  }

  /** Which columns a call writes: new persons and with them perhaps the approver, never the requester; or a cancellation
      and no approver. */
  predicate Careful(c: Change) {
    if c.next.status == c.read.status then
      && c.read.status.InReview?
      && (NewEvents(c) == [] || NewEvents(c) == [Entry(ApproverChanged, System)])
      && (c.next.unitManager != c.read.unitManager ==> c.next.unitManager != c.read.employee)
      && (c.next.siteManager != c.read.siteManager ==> c.next.siteManager != c.read.employee)
      && (c.next.approver != c.read.approver ==> c.next.approver.Some? && c.next.approver.value != c.read.employee)
    else
      && IsOpen(c.read.status) && c.next.status.Cancelled? && c.next.approver == None
      && NewEvents(c) == [Entry(CancelledBy, System)]
      && c.next.unitManager == c.read.unitManager && c.next.siteManager == c.read.siteManager
  }

  ghost predicate PendingSound(s: Portal) {
    forall t, id :: t in s.pending && id in s.pending[t] ==> id in s.table && Follows(s.pending[t][id], s.table[id])
  }

  /** Besides, in every run: each row keeps its invariant, and what is yet to be written is careful. */
  ghost predicate SystemOk(cfg: int -> Config, s: Portal) {
    CountsOk(cfg, s) && RowsOk(s.table) && PendingSound(s)
  }

  // ---------- operations on rows ----------

  /** Whatever a row holds: no operation makes another request of it, or opens or counts a closed one. */
  predicate Lessens(r: Request, n: Request) {
    && SameRequest(n, r)
    && (IsOpen(n.status) ==> IsOpen(r.status))
    && (IsCounted(n.status) ==> IsCounted(r.status))
  }

  lemma NextLessens(op: Op, id: nat, r: Request)
    ensures Lessens(r, Next(op, id, r))
  {
    hide UsableApprover, ReassignOne, Selected;
    if op.ApproverBatch? && op.approve {
      var advanced := r.(stepIndex := r.stepIndex + 1, log := r.log + [Entry(ApprovedBy, Person(op.employee))]);
      UsableSame(op.w, advanced.(status := InReview), StepAt(advanced));
    } else if op.ReassignAll? {
      ReassignChanges(op.w, r, op.refresh, true);
    }
  }

  lemma OverwrittenLessens(c: Change, r: Request)
    requires Harmless(c)
    ensures Lessens(r, Overwritten(c, r))
  {
  }

  lemma ChangesHarmless(call: Op, table: Table)
    requires Unlocked(call)
    ensures forall id :: id in ChangesOf(call, table) ==> Harmless(ChangesOf(call, table)[id])
  {
    hide ReassignOne, Selected;
    forall id | id in ChangesOf(call, table)
      ensures Harmless(ChangesOf(call, table)[id])
    {
      if call.ReassignAll? {
        ReassignChanges(call.w, table[id], call.refresh, true);
      }
    }
  }

  /** One row for another in a whole table. */
  ghost predicate TableLessens(before: Table, after: Table) {
    after.Keys == before.Keys && forall id :: id in before ==> Lessens(before[id], after[id])
  }

  lemma FewerCounted(cfg: int -> Config, before: Table, after: Table)
    requires TableLessens(before, after)
    ensures DatesOk(cfg, before) ==> DatesOk(cfg, after)
    ensures forall e :: OpenOf(after, e) <= OpenOf(before, e)
    ensures forall e, m :: CountedOf(after, e, m) <= CountedOf(before, e, m)
  {
    hide RequestMonth, InWindow, RealDate;
  }

  lemma RowsLater(op: Op, table: Table)
    requires RowsOk(table)
    ensures RowsOk(NextTable(op, table))
    ensures forall id :: id in table ==> Later(table[id], NextTable(op, table)[id])
  {
    hide Invariant, Next;
    forall id | id in table
      ensures Invariant(NextTable(op, table)[id]) && Later(table[id], NextTable(op, table)[id])
    {
      NextLater(op, id, table[id]);
    }
  }

  lemma NextLater(op: Op, id: nat, r: Request)
    requires Invariant(r)
    ensures Invariant(Next(op, id, r)) && Later(r, Next(op, id, r))
  {
    hide Invariant, Attempt;
    if Attempt(op, id, r).Some? {
      AttemptLater(op, id, r);
    }
  }

  lemma FewerRows(cfg: int -> Config, before: Table, after: Table)
    requires forall e :: OpenOf(after, e) <= OpenOf(before, e)
    requires forall e, m :: CountedOf(after, e, m) <= CountedOf(before, e, m)
    ensures CapsOk(cfg, before) ==> CapsOk(cfg, after)
    ensures forall p :: Found(cfg, before, p) ==> Found(cfg, after, p)
  {
    hide OpenOf, CountedOf;
    forall e
      ensures |OpenOf(after, e)| <= |OpenOf(before, e)|
    {
      SmallerSet(OpenOf(after, e), OpenOf(before, e));
    }
    forall e, m
      ensures |CountedOf(after, e, m)| <= |CountedOf(before, e, m)|
    {
      SmallerSet(CountedOf(after, e, m), CountedOf(before, e, m));
    }
  }

  lemma TableOk(cfg: int -> Config, s: Portal, after: Table)
    requires CountsOk(cfg, s) && TableLessens(s.table, after)
    ensures CountsOk(cfg, s.(table := after))
  {
    hide CapsOk, Found, OpenOf, CountedOf, TableLessens, DatesOk;
    FewerCounted(cfg, s.table, after);
    FewerRows(cfg, s.table, after);
  }

  lemma NextTableLessens(op: Op, table: Table)
    ensures TableLessens(table, NextTable(op, table))
  {
    hide Next, Lessens;
    forall id | id in table
      ensures Lessens(table[id], NextTable(op, table)[id])
    {
      NextLessens(op, id, table[id]);
    }
  }

  lemma WrittenTableLessens(s: Portal, session: int)
    requires PendingOk(s)
    ensures TableLessens(s.table, WrittenTable(PendingOf(s, session), s.table))
  {
    hide Overwritten, Lessens, Harmless;
    var changes := PendingOf(s, session);
    forall id | id in s.table
      ensures Lessens(s.table[id], WrittenTable(changes, s.table)[id])
    {
      if id in changes {
        OverwrittenLessens(changes[id], s.table[id]);
      } else {
        SameLessens(s.table[id]);
      }
    }
  }

  lemma SameLessens(r: Request)
    ensures Lessens(r, r)
  {
  }

  lemma ReadRowsOk(s: Portal, session: int, call: Op)
    requires PendingOk(s) && Unlocked(call)
    ensures PendingOk(s.(pending := s.pending[session := ChangesOf(call, s.table)]))
  {
    ChangesHarmless(call, s.table);
    hide ChangesOf, Harmless, Unlocked;
  }

  lemma PendingKept(s: Portal, n: Portal)
    requires PendingOk(s) && forall t :: t in n.pending ==> t in s.pending && n.pending[t] == s.pending[t]
    ensures PendingOk(n)
  {
    hide Harmless;
  }

  lemma FoundKept(cfg: int -> Config, s: Portal, n: Portal)
    requires FoundOk(cfg, s) && n.table == s.table && n.phase == s.phase
    ensures FoundOk(cfg, n)
  {
    hide Found;
  }

  lemma RowOperationCounts(cfg: int -> Config, s: Portal, op: Op)
    requires CountsOk(cfg, s) && !IsSubmission(op)
    ensures CountsOk(cfg, After(cfg, s, op))
  {
    hide CapsOk, FoundOk, PendingOk, NextTable, DatesOk, LocksOk, WrittenTable, ChangesOf, TableLessens;
    var n := After(cfg, s, op);
    LocksKept(s, n);
    match op
    case ReadRows(session, call) =>
      if Unlocked(call) {
        ReadRowsOk(s, session, call);
      }
      FoundKept(cfg, s, n);
    case WriteRows(session) =>
      var written := s.(table := WrittenTable(PendingOf(s, session), s.table));
      WrittenTableLessens(s, session);
      TableOk(cfg, s, written.table);
      PendingKept(written, n);
      FoundKept(cfg, written, n);
    case _ =>
      NextTableLessens(op, s.table);
      TableOk(cfg, s, NextTable(op, s.table));
  }

  lemma LocksKept(s: Portal, n: Portal)
    requires LocksOk(s) && n.lock == s.lock && n.phase == s.phase
    ensures LocksOk(n)
  {
  }

  // ---------- submissions ----------

  lemma ReleaseOk(cfg: int -> Config, s: Portal, session: int)
    requires LocksOk(s) && FoundOk(cfg, s)
    ensures LocksOk(Release(s, session)) && FoundOk(cfg, Release(s, session))
    ensures Release(s, session).table == s.table
  {
    hide OpenOf, CountedOf;
  }

  lemma AdvanceOk(cfg: int -> Config, s: Portal, session: int, p: Phase)
    requires LocksOk(s) && FoundOk(cfg, s)
    requires !PhaseOf(s, session).Idle? && !p.Idle? && p.employee == PhaseOf(s, session).employee
    requires Found(cfg, s.table, p)
    ensures var n := s.(phase := s.phase[session := p]); LocksOk(n) && FoundOk(cfg, n)
  {
    hide OpenOf, CountedOf;
  }

  lemma LockOk(cfg: int -> Config, s: Portal, session: int, employee: int)
    requires LocksOk(s) && FoundOk(cfg, s)
    requires PhaseOf(s, session).Idle? && employee !in s.lock
    ensures var n := s.(lock := s.lock[employee := session], phase := s.phase[session := Locked(employee)]);
            LocksOk(n) && FoundOk(cfg, n)
  {
    hide OpenOf, CountedOf;
  }

  /** A new row adds one open and one counted request of its own employee, and touches nobody else's counts. */
  lemma InsertCounts(table: Table, id: nat, row: Request)
    requires id !in table
    ensures var n := table[id := row];
            && (forall e :: e != row.employee ==> OpenOf(n, e) == OpenOf(table, e))
            && (forall e, m :: e != row.employee ==> CountedOf(n, e, m) == CountedOf(table, e, m))
            && OpenOf(n, row.employee) <= OpenOf(table, row.employee) + {id}
            && CountedOf(n, row.employee, row.month) <= CountedOf(table, row.employee, row.month) + {id}
            && (forall m :: m != row.month ==> CountedOf(n, row.employee, m) == CountedOf(table, row.employee, m))
  {
  }

  lemma InsertCaps(cfg: int -> Config, table: Table, id: nat, row: Request)
    requires id !in table && CapsOk(cfg, table)
    requires OpenOf(table, row.employee) == {}
    requires |CountedOf(table, row.employee, row.month)| < cfg(row.employee).maxPerMonth
    ensures CapsOk(cfg, table[id := row])
  {
    hide OpenOf, CountedOf;
    var n := table[id := row];
    InsertCounts(table, id, row);
    SmallerSet(OpenOf(n, row.employee), {id});
    SmallerSet(CountedOf(n, row.employee, row.month), CountedOf(table, row.employee, row.month) + {id});
  }

  lemma InsertOk(cfg: int -> Config, s: Portal, op: Op)
    requires CountsOk(cfg, s) && op.Insert?
    requires PhaseOf(s, op.session).Clear? && op.id !in s.table
    ensures CountsOk(cfg, After(cfg, s, op))
    ensures RowsOk(s.table) ==> RowsOk(After(cfg, s, op).table)
  {
    hide OpenOf, CountedOf, CapsOk, Invariant, EnterStep, Draft, Harmless;
    var p := PhaseOf(s, op.session);
    var c := cfg(p.employee);
    var month := RequestMonth(p.today, c.from, c.to);
    var row := EnterStep(op.w, Draft(op.site, p.employee, op.amount, p.today, month, op.unit, op.manager));
    NewRow(op.w, op.site, p.employee, op.amount, p.today, month, op.unit, op.manager);
    assert Found(cfg, s.table, p);
    InsertCaps(cfg, s.table, op.id, row);
    InsertCounts(s.table, op.id, row);
    var released := Release(s, op.session);
    ReleaseOk(cfg, s, op.session);
    OthersUnaffected(cfg, released, op.id, row);
  }

  lemma NewRow(w: World, site: int, employee: int, amount: int, today: JalaliDate, month: Month, unit: int, manager: int)
    ensures var row := EnterStep(w, Draft(site, employee, amount, today, month, unit, manager));
            && Invariant(row)
            && row.employee == employee && row.submittedOn == today && row.month == month
  {
    hide Invariant, UsableApprover;
    SubmittedInvariant(w, site, employee, amount, today, month, unit, manager);
    var draft := Draft(site, employee, amount, today, month, unit, manager);
    if !StepAt(draft).Finance? {
      UsableSame(w, draft.(status := InReview), StepAt(draft));
    }
  }

  lemma UsableSame(w: World, r: Request, step: Step)
    ensures SameRequest(UsableApprover(w, r, step), r)
  {
    hide ReassignOne;
    ReassignChanges(w, r, false, false);
  }

  /** After its release the employee is locked by nobody, so no other submission relied on the employee's counts. */
  lemma OthersUnaffected(cfg: int -> Config, s: Portal, id: nat, row: Request)
    requires LocksOk(s) && FoundOk(cfg, s) && id !in s.table
    requires row.employee !in s.lock
    ensures FoundOk(cfg, s.(table := s.table[id := row]))
  {
    hide OpenOf, CountedOf;
    InsertCounts(s.table, id, row);
  }

  lemma SubmissionOk(cfg: int -> Config, s: Portal, op: Op)
    requires CountsOk(cfg, s) && IsSubmission(op)
    ensures CountsOk(cfg, After(cfg, s, op))
    ensures RowsOk(s.table) ==> RowsOk(After(cfg, s, op).table)
  {
    hide OpenOf, CountedOf, CapsOk, RowsOk, LocksOk, FoundOk, DatesOk, PendingOk;
    if !op.Insert? {
      PendingKept(s, After(cfg, s, op));
    }
    if op.Insert? {
      if PhaseOf(s, op.session).Clear? && op.id !in s.table {
        InsertOk(cfg, s, op);
      }
    } else {
      var p := PhaseOf(s, op.session);
      ReleaseOk(cfg, s, op.session);
      match op
      case LockEmployee(session, employee) =>
        if p.Idle? && employee !in s.lock {
          LockOk(cfg, s, session, employee);
        }
      case CountMonth(session, today) =>
        if p.Locked? && Found(cfg, s.table, Counted(p.employee, today)) {
          AdvanceOk(cfg, s, session, Counted(p.employee, today));
        }
      case CheckOpen(session) =>
        if p.Counted? {
          FoundOf(cfg, s, session);
          if OpenOf(s.table, p.employee) == {} {
            AdvanceOk(cfg, s, session, Clear(p.employee, p.today));
          }
        }
      case _ =>
    }
  }

  lemma FoundOf(cfg: int -> Config, s: Portal, session: int)
    requires FoundOk(cfg, s)
    ensures Found(cfg, s.table, PhaseOf(s, session))
  {
  }

  // ---------- every run ----------

  lemma EmptyOk(cfg: int -> Config)
    ensures CountsOk(cfg, EMPTY)
  {
  }

  lemma CountsStep(cfg: int -> Config, s: Portal, op: Op)
    requires CountsOk(cfg, s)
    ensures CountsOk(cfg, After(cfg, s, op))
  {
    hide CountsOk, After;
    if IsSubmission(op) {
      SubmissionOk(cfg, s, op);
    } else {
      RowOperationCounts(cfg, s, op);
    }
  }

  lemma ChangeMade(call: Op, id: nat, r: Request)
    requires Unlocked(call) && Invariant(r) && Attempt(call, id, r).Some?
    ensures ChangeOk(Change(r, Attempt(call, id, r).value))
  {
    hide Invariant, Later, Routed, ClosedOnce, Careful, Overwritten, Attempt;
    AttemptLater(call, id, r);
    if call.ReassignAll? {
      ReassignCareful(call, id, r);
    } else {
      LeaverCareful(call, id, r);
    }
  }

  lemma ReassignCareful(call: Op, id: nat, r: Request)
    requires call.ReassignAll? && Attempt(call, id, r).Some?
    ensures var c := Change(r, Attempt(call, id, r).value); Careful(c) && Overwritten(c, r) == c.next
  {
    hide ReassignOne, Selected;
    var n := Attempt(call, id, r).value;
    ReassignChanges(call.w, r, call.refresh, true);
    ReassignMoves(call.w, r, call.refresh);
    ReassignLeaves(call.w, r, call.refresh);
    WrittenBack(r, n);
    assert n == r || n.log[|r.log|..] == [Entry(ApproverChanged, System)];
    assert PersonOf(n, UnitManager) == n.unitManager && PersonOf(n, SiteManager) == n.siteManager;
    assert PersonOf(r, UnitManager) == r.unitManager && PersonOf(r, SiteManager) == r.siteManager;
  }

  lemma LeaverCareful(call: Op, id: nat, r: Request)
    requires call.EmployeesLeft? && Attempt(call, id, r).Some?
    ensures var c := Change(r, Attempt(call, id, r).value); Careful(c) && Overwritten(c, r) == c.next
  {
    assert (r.log + [Entry(CancelledBy, System)])[|r.log|..] == [Entry(CancelledBy, System)];
  }

  lemma ReassignLeaves(w: World, r: Request, refresh: bool)
    ensures var s := ReassignOne(w, r, refresh, true);
            s == r.(unitManager := s.unitManager, siteManager := s.siteManager, approver := s.approver, log := s.log)
  {
    hide PlanFor;
  }

  lemma WrittenBack(r: Request, n: Request)
    requires r.log <= n.log
    ensures r.log + NewEvents(Change(r, n)) == n.log
  {
  }

  // ---------- late writes ----------

  /** From any state of a row to a later one: the same request, no reopening, a log that only grows, and no way out of a
      final status but into a cancellation. */
  ghost predicate Onward(r: Request, n: Request) {
    && SameRequest(n, r)
    && (IsOpen(n.status) ==> IsOpen(r.status))
    && (IsCounted(n.status) ==> IsCounted(r.status))
    && (IsFinal(r.status) ==> n.status == r.status || n.status.Cancelled?)
    && r.log <= n.log
    && Rank(n) <= Rank(r)
    && r.stepIndex <= n.stepIndex
  }

  lemma OnwardTransitive(a: Request, b: Request, c: Request)
    requires Onward(a, b) && Onward(b, c)
    ensures Onward(a, c)
  {
  }

  lemma LaterOnward(r: Request, n: Request)
    ensures Later(r, n) ==> Onward(r, n)
    ensures Onward(r, r)
  {
  }

  /** A call keeps the invariant of the row it writes over, whatever that row has become since it was read. */
  lemma {:induction false} OverwrittenInvariant(c: Change, now: Request)
    requires Invariant(now) && Follows(c, now)
    ensures Invariant(Overwritten(c, now)) && Onward(now, Overwritten(c, now))
  {
    hide Later, Routed, ClosedOnce, Count;
    var n := Overwritten(c, now);
    OverwrittenOthers(c, now);
    if c.next.status == c.read.status {
      LogChanged(now.log, now.employee);
      assert NewEvents(c) == [] ==> n.log == now.log;
    } else {
      CountSnoc(now.log, Entry(CancelledBy, System));
    }
  }

  lemma OverwrittenOthers(c: Change, now: Request)
    requires OthersDecide(now) && Careful(c) && SameRequest(now, c.read) && OthersDecide(c.read)
    ensures OthersDecide(Overwritten(c, now))
  {
  }

  // ---------- every step keeps it ----------

  /** What a step does to the rows that there are. */
  ghost predicate RowsOnward(before: Table, after: Table) {
    forall id :: id in before ==> id in after && Onward(before[id], after[id])
  }

  lemma {:induction false} RowsStep(cfg: int -> Config, s: Portal, op: Op)
    requires SystemOk(cfg, s)
    ensures RowsOk(After(cfg, s, op).table) && RowsOnward(s.table, After(cfg, s, op).table)
  {
    hide CountsOk, Invariant, EnterStep, Draft, NextTable, Follows, Overwritten, OpenOf, CountedOf, Onward, Later;
    RowsOnwardSelf(s.table);
    if IsSubmission(op) {
      SubmissionOk(cfg, s, op);
      SubmissionRows(cfg, s, op);
    } else if op.WriteRows? {
      forall id | id in s.table && id in PendingOf(s, op.session)
        ensures Invariant(Overwritten(PendingOf(s, op.session)[id], s.table[id]))
        ensures Onward(s.table[id], Overwritten(PendingOf(s, op.session)[id], s.table[id]))
      {
        OverwrittenInvariant(PendingOf(s, op.session)[id], s.table[id]);
      }
    } else if !op.ReadRows? {
      RowsLater(op, s.table);
      NextOnward(op, s.table);
    }
  }

  lemma RowsOnwardSelf(table: Table)
    ensures RowsOnward(table, table)
  {
    hide Onward;
    forall id | id in table
      ensures Onward(table[id], table[id])
    {
      LaterOnward(table[id], table[id]);
    }
  }

  lemma SubmissionRows(cfg: int -> Config, s: Portal, op: Op)
    requires IsSubmission(op)
    ensures forall id :: id in s.table ==> id in After(cfg, s, op).table && After(cfg, s, op).table[id] == s.table[id]
  {
    hide EnterStep, Draft, OpenOf, CountedOf;
  }

  lemma NextOnward(op: Op, table: Table)
    requires RowsOk(table)
    ensures RowsOnward(table, NextTable(op, table))
  {
    hide Later, Onward, Invariant, Next;
    RowsLater(op, table);
    forall id | id in table
      ensures Onward(table[id], NextTable(op, table)[id])
    {
      LaterOnward(table[id], NextTable(op, table)[id]);
    }
  }

  lemma FollowsOnward(c: Change, now: Request, n: Request)
    requires Follows(c, now) && Onward(now, n)
    ensures Follows(c, n)
  {
    hide ChangeOk;
  }

  lemma {:induction false} PendingStep(cfg: int -> Config, s: Portal, op: Op)
    requires RowsOk(s.table) && PendingSound(s) && RowsOnward(s.table, After(cfg, s, op).table)
    ensures PendingSound(After(cfg, s, op))
  {
    hide Follows, Onward, RowsOk;
    var n := After(cfg, s, op);
    forall t, id | t in n.pending && id in n.pending[t]
      ensures id in n.table && Follows(n.pending[t][id], n.table[id])
    {
      if t in s.pending && n.pending[t] == s.pending[t] {
        FollowsOnward(s.pending[t][id], s.table[id], n.table[id]);
      } else {
        NewlyRead(cfg, s, op, t);
        ReadFollows(op.call, id, s.table);
      }
    }
  }

  /** A session gets something to write only by reading. */
  lemma NewlyRead(cfg: int -> Config, s: Portal, op: Op, t: int)
    requires var n := After(cfg, s, op); t in n.pending && !(t in s.pending && n.pending[t] == s.pending[t])
    ensures op.ReadRows? && op.session == t && Unlocked(op.call)
    ensures After(cfg, s, op).table == s.table && After(cfg, s, op).pending[t] == ChangesOf(op.call, s.table)
  {
    hide EnterStep, Draft, NextTable, WrittenTable, OpenOf, CountedOf, ChangesOf;
  }

  lemma ReadFollows(call: Op, id: nat, table: Table)
    requires RowsOk(table) && Unlocked(call) && id in ChangesOf(call, table)
    ensures id in table && Follows(ChangesOf(call, table)[id], table[id])
  {
    hide Invariant, ChangeOk, Attempt;
    ChangeMade(call, id, table[id]);
  }

  /** Over every interleaving, unlocked calls included: an employee has at most one open request, and at most the cap of
      counted requests per month. */
  lemma {:induction false} RunCounts(cfg: int -> Config, ops: seq<Op>)
    ensures CountsOk(cfg, Run(cfg, ops))
  {
    hide CountsOk, After;
    if ops == [] {
      EmptyOk(cfg);
    } else {
      RunCounts(cfg, ops[..|ops| - 1]);
      CountsStep(cfg, Run(cfg, ops[..|ops| - 1]), ops[|ops| - 1]);
    }
  }

  lemma {:induction false} LastOp(cfg: int -> Config, ops: seq<Op>, i: nat)
    requires i < |ops|
    ensures Run(cfg, ops[..i + 1]) == After(cfg, Run(cfg, ops[..i]), ops[i])
  {
    hide After;
    assert ops[..i + 1][..i] == ops[..i];
  }

  /** Over every interleaving, unlocked calls included: every row keeps its invariant too. */
  lemma {:induction false} RunOk(cfg: int -> Config, ops: seq<Op>)
    ensures SystemOk(cfg, Run(cfg, ops))
  {
    hide CountsOk, RowsOk, After, PendingSound, RowsOnward;
    RunCounts(cfg, ops);
    if ops == [] {
      EmptyRows();
    } else {
      var front := ops[..|ops| - 1];
      RunOk(cfg, front);
      RowsStep(cfg, Run(cfg, front), ops[|ops| - 1]);
      PendingStep(cfg, Run(cfg, front), ops[|ops| - 1]);
    }
  }

  lemma EmptyRows()
    ensures RowsOk(EMPTY.table) && PendingSound(EMPTY)
  {
  }

  /** At every moment of every run: at most one open request of an employee, and at most the cap of counted ones. */
  lemma {:induction false} EveryCount(cfg: int -> Config, ops: seq<Op>, employee: int, month: Month)
    ensures |OpenOf(Run(cfg, ops).table, employee)| <= 1
    ensures |CountedOf(Run(cfg, ops).table, employee, month)| <= cfg(employee).maxPerMonth
  {
    hide Run, OpenOf, CountedOf;
    RunCounts(cfg, ops);
  }

  /** What holds of every request at every moment of every run, unlocked calls included. */
  lemma {:induction false} EveryRequest(cfg: int -> Config, ops: seq<Op>, id: nat)
    requires id in Run(cfg, ops).table
    ensures var r := Run(cfg, ops).table[id];
            && Count(r.log, ApprovedBy) == r.stepIndex
            && r.status == LogStatus(r.log, |r.steps|)
            && (r.status.InReview? ==>
                  r.stepIndex < |r.steps| - 1 && !r.steps[r.stepIndex].Finance?
                  && r.approver.Some? && r.approver.value != r.employee)
            && (r.status.WaitingFinance? ==> r.stepIndex == |r.steps| - 1 && r.steps[r.stepIndex].Finance?)
            && (r.status.Approved? || r.status.Paid? ==> r.stepIndex == |r.steps|)
            && (forall i :: 0 <= i < |r.log| && IsDecision(r.log[i]) ==> r.log[i].actor != Person(r.employee))
            && (forall i :: 0 <= i < |r.steps| - 1 ==> PersonOf(r, r.steps[i]) != r.employee)
            && Decisions(r.log) <= |r.steps| + 1 <= 4
  {
    hide Run, Count, LogStatus, Rank, CountsOk, PendingSound;
    RunOk(cfg, ops);
    var r := Run(cfg, ops).table[id];
    if r.stepIndex < |r.steps| {
      RouteShape(r.steps, r.stepIndex);
    }
  }

  // ---------- history ----------

  /** A request never disappears; as a run goes on, unlocked calls included, its log only grows, its rank never rises, it
      is never reopened, and a final status never changes but into a cancellation. */
  lemma {:induction false} History(cfg: int -> Config, ops: seq<Op>, i: nat, id: nat)
    requires i <= |ops| && id in Run(cfg, ops[..i]).table
    ensures id in Run(cfg, ops).table
    ensures Onward(Run(cfg, ops[..i]).table[id], Run(cfg, ops).table[id])
    decreases |ops|
  {
    hide CountsOk, RowsOk, PendingSound, After, Onward;
    if i == |ops| {
      assert ops[..i] == ops;
      LaterOnward(Run(cfg, ops).table[id], Run(cfg, ops).table[id]);
    } else {
      var front := ops[..|ops| - 1];
      assert front[..i] == ops[..i];
      History(cfg, front, i, id);
      RunOk(cfg, front);
      RowsStep(cfg, Run(cfg, front), ops[|ops| - 1]);
      OnwardTransitive(Run(cfg, ops[..i]).table[id], Run(cfg, front).table[id], Run(cfg, ops).table[id]);
    }
  }

  // ---------- final statuses and unlocked calls ----------

  /** A call is about to write `cancelled` over the row. */
  predicate AboutToCancel(s: Portal, op: Op, id: nat) {
    && op.WriteRows? && id in PendingOf(s, op.session)
    && var c := PendingOf(s, op.session)[id];
       c.next.status != c.read.status
  }

  /** Step by step, whatever has happened before: a paid, rejected or cancelled request keeps its status except, and
      exactly then, when it is not cancelled yet and an unlocked call that read it open now writes its cancellation. No
      other step touches it at all. */
  lemma {:induction false} FinalStays(cfg: int -> Config, s: Portal, op: Op, id: nat)
    requires CountsOk(cfg, s) && id in s.table && IsFinal(s.table[id].status)
    ensures id in After(cfg, s, op).table
    ensures After(cfg, s, op).table[id].status == s.table[id].status
       <==> s.table[id].status.Cancelled? || !AboutToCancel(s, op, id)
    ensures After(cfg, s, op).table[id] == s.table[id] || (op.WriteRows? && id in PendingOf(s, op.session))
  {
    hide DatesOk, LocksOk, CapsOk, FoundOk, EnterStep, Draft, OpenOf, CountedOf, ChangesOf;
    var r := s.table[id];
    if op.WriteRows? {
      if id in PendingOf(s, op.session) {
        assert Harmless(PendingOf(s, op.session)[id]);
      }
    } else if !IsSubmission(op) && !op.ReadRows? {
      FinalAttempt(op, id, r);
    }
  }

  lemma FinalAttempt(op: Op, id: nat, r: Request)
    requires IsFinal(r.status)
    ensures Attempt(op, id, r) == None
  {
    hide EnterStep, ReassignOne, Selected;
  }

  /** Over a run: a paid or rejected request is still so at the end if and only if no unlocked call that read it open has
      written its cancellation since. */
  lemma {:induction false} FinalKept(cfg: int -> Config, ops: seq<Op>, i: nat, id: nat)
    requires i <= |ops| && id in Run(cfg, ops[..i]).table
    requires var status := Run(cfg, ops[..i]).table[id].status; IsFinal(status) && !status.Cancelled?
    ensures id in Run(cfg, ops).table
    ensures Run(cfg, ops).table[id].status == Run(cfg, ops[..i]).table[id].status
       <==> forall k :: i <= k < |ops| ==> !AboutToCancel(Run(cfg, ops[..k]), ops[k], id)
    decreases |ops|
  {
    hide CountsOk, After, AboutToCancel;
    History(cfg, ops, i, id);
    if i == |ops| {
      assert ops[..i] == ops;
    } else {
      var m := |ops| - 1;
      var front := ops[..m];
      assert forall k :: 0 <= k <= m ==> front[..k] == ops[..k];
      FinalKept(cfg, front, i, id);
      History(cfg, front, i, id);
      RunCounts(cfg, front);
      FinalStays(cfg, Run(cfg, front), ops[m], id);
    }
  }

  /** An unlocked call writes over no row that has changed since it was read. */
  predicate Timely(s: Portal, op: Op) {
    op.WriteRows? ==>
      forall id :: id in PendingOf(s, op.session) ==> id in s.table && s.table[id] == PendingOf(s, op.session)[id].read
  }

  ghost predicate AllTimely(cfg: int -> Config, ops: seq<Op>) {
    forall i :: 0 <= i < |ops| ==> Timely(Run(cfg, ops[..i]), ops[i])
  }

  /** An unlocked call with nothing in between is one transaction. */
  lemma {:induction false} ReadThenWrite(cfg: int -> Config, s: Portal, session: int, call: Op)
    requires RowsOk(s.table) && Unlocked(call) && session !in s.pending
    ensures After(cfg, After(cfg, s, ReadRows(session, call)), WriteRows(session)) == After(cfg, s, call)
  {
    hide Invariant, Overwritten, Attempt, Later, Careful, Routed;
    var read := After(cfg, s, ReadRows(session, call));
    assert PendingOf(read, session) == ChangesOf(call, s.table);
    forall id | id in ChangesOf(call, s.table)
      ensures Overwritten(ChangesOf(call, s.table)[id], s.table[id]) == Next(call, id, s.table[id])
    {
      ChangeMade(call, id, s.table[id]);
    }
    assert WrittenTable(ChangesOf(call, s.table), s.table) == NextTable(call, s.table);
    assert read.pending - {session} == s.pending;
  }

  lemma LaterReflexive(r: Request)
    ensures Later(r, r)
  {
  }

  /** One decision costs one rank: each operation that decides or closes a request lowers it, so it decides at most
      four times before the request is final. */
  lemma DecisionsLowerRank(op: Op, id: nat, r: Request)
    requires Invariant(r) && Attempt(op, id, r).Some? && !op.ReassignAll?
    ensures Rank(Attempt(op, id, r).value) < Rank(r)
  {
    hide Invariant, EnterStep, Rank;
    match op
    case ApproverBatch(w, employee, ids, approve) => DecideInvariant(w, r, employee, approve);
    case FinanceBatch(site, user, ids, approve) => FinanceInvariant(r, site, user, approve);
    case PayBatch(site, user, ids, date) => PayInvariant(r, site, user, date);
    case CancelOne(employee, target) => CancelInvariant(r, employee);
    case EmployeesLeft(employees) => LeftInvariant(r);
    case _ =>
  }

  // ---------- the cap per opening of the window ----------

  /** Counted requests of one employee whose submission days lie in one uninterrupted opening of the window are at most
      the cap, also when the opening runs over the end of a month, provided some day of 1..29 is outside the window. */
  lemma {:induction false} CapPerOpening(cfg: int -> Config, ops: seq<Op>, employee: int, ids: set<nat>, x: int)
    requires 1 <= x <= 29 && !InWindow(x, cfg(employee).from, cfg(employee).to)
    requires var table := Run(cfg, ops).table;
             forall id :: id in ids ==>
               id in table && table[id].employee == employee && IsCounted(table[id].status)
    requires var table := Run(cfg, ops).table; var c := cfg(employee);
             forall a, b :: a in ids && b in ids && !Before(table[b].submittedOn, table[a].submittedOn) ==>
               Joined(table[a].submittedOn, table[b].submittedOn, c.from, c.to)
    ensures |ids| <= cfg(employee).maxPerMonth
  {
    hide Run, Joined, Before, LocksOk, FoundOk, CapsOk, PendingOk, RealDate, RequestMonth, InWindow;
    if ids != {} {
      var table, c := Run(cfg, ops).table, cfg(employee);
      RunCounts(cfg, ops);
      var first := SomeElement(ids);
      forall id | id in ids
        ensures table[id].month == table[first].month
      {
        SubmittedTogether(table[first].submittedOn, table[id].submittedOn, c, x);
      }
      SmallerSet(ids, CountedOf(table, employee, table[first].month));
      EveryCount(cfg, ops, employee, table[first].month);
    }
  }

  lemma SubmittedTogether(a: JalaliDate, b: JalaliDate, c: Config, x: int)
    requires RealDate(a) && RealDate(b)
    requires !Before(b, a) ==> Joined(a, b, c.from, c.to)
    requires !Before(a, b) ==> Joined(b, a, c.from, c.to)
    requires 1 <= x <= 29 && !InWindow(x, c.from, c.to)
    ensures RequestMonth(a, c.from, c.to) == RequestMonth(b, c.from, c.to)
  {
    hide RealDate, Joined, RequestMonth, InWindow;
    if Before(b, a) {
      JoinedSameMonth(b, a, c.from, c.to, x);
    } else {
      JoinedSameMonth(a, b, c.from, c.to, x);
    }
  }
}
