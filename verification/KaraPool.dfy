/** The connection pool (backend/app/core/kara_pool.py). */
module KaraPool {
  // The module lock makes each access to the idle buckets one step; the test of a taken connection, its creation, the
  // rollback of a returned one and the discarding run outside the lock. So does the flag of a wrapper: `close` reads it
  // in one step and sets it in another. Two threads that close one wrapper at once can both find the flag unset. A
  // ledger kept beside the state records where every connection is; as long as no two closes overlap so, an invariant
  // ties it to the actual state in both directions.

  import opened Common

  const MAX_IDLE_PER_KEY := 4
  const IDLE_TTL_SECONDS := 300

  type Key = string
  type Raw = nat
  type Thread = int

  /** An idle connection and the time it was put back. */
  datatype Entry = Entry(raw: Raw, since: int)

  /** The wrapper handed to a caller. */
  datatype Wrapper = Wrapper(raw: Raw, key: Key, returned: bool)

  /** What a thread is doing inside the module. */
  datatype Task =
    | Free
    | Looking(key: Key, now: int)
    | Testing(key: Key, now: int, raw: Raw, since: int)
    | Creating(key: Key)
    | Closing(wrapper: nat) // has found the flag of the wrapper unset
    | RollingBack(key: Key, raw: Raw)
    | PuttingBack(key: Key, raw: Raw)

  datatype Place = InBucket(key: Key) | With(wrapper: nat) | InTask(thread: Thread) | InSweep(thread: Thread) | Closed

  /** `sweeps` holds what a thread in `close_all` has taken out of the buckets and has yet to close. */
  datatype State = State(
    idle: map<Key, seq<Entry>>, wrappers: seq<Wrapper>, task: map<Thread, Task>, sweeps: map<Thread, set<Raw>>,
    created: nat, closed: set<Raw>, ledger: map<Raw, Place>, clock: int)

  const INITIAL := State(map[], [], map[], map[], 0, {}, map[], 0)

  datatype Op =
    | Ask(t: Thread, key: Key)
    | Take(t: Thread)
    | Test(t: Thread, alive: bool)
    | Create(t: Thread)
    | CreateFails(t: Thread)
    | ReadFlag(t: Thread, wrapper: nat)
    | SetFlag(t: Thread)
    | Rollback(t: Thread, succeeds: bool)
    | PutBack(t: Thread)
    | CloseAll(t: Thread)
    | SweepOne(t: Thread, raw: Raw)
    | Tick(passed: nat)

  function TaskOf(s: State, t: Thread): Task {
    if t in s.task then s.task[t] else Free
  }

  function SweepOf(s: State, t: Thread): set<Raw> {
    if t in s.sweeps then s.sweeps[t] else {}
  }

  function Bucket(s: State, key: Key): seq<Entry> {
    if key in s.idle then s.idle[key] else []
  }

  /** Connection `raw` is handed to a caller in a new wrapper. */
  function HandOut(s: State, t: Thread, raw: Raw, key: Key): State {
    s.(wrappers := s.wrappers + [Wrapper(raw, key, false)], task := s.task[t := Free],
       ledger := s.ledger[raw := With(|s.wrappers|)])
  }

  function Discard(s: State, raw: Raw): State {
    s.(closed := s.closed + {raw}, ledger := s.ledger[raw := Closed])
  }

  function IdleRaws(s: State): set<Raw> {
    set k, i | k in s.idle && 0 <= i < |s.idle[k]| :: s.idle[k][i].raw
  }

  /** `now - since > IDLE_TTL_SECONDS`. */
  predicate Expired(now: int, since: int) {
    now - since > IDLE_TTL_SECONDS
  }

  function Step(s: State, op: Op): State {
    match op
    case Ask(t, key) => if TaskOf(s, t).Free? then s.(task := s.task[t := Looking(key, s.clock)]) else s
    case Take(t) =>
      var p := TaskOf(s, t);
      if !p.Looking? then s
      else
        var bucket := Bucket(s, p.key);
        if bucket == [] then s.(task := s.task[t := Creating(p.key)])
        else
          s.(idle := s.idle[p.key := bucket[1..]], ledger := s.ledger[bucket[0].raw := InTask(t)],
             task := s.task[t := Testing(p.key, p.now, bucket[0].raw, bucket[0].since)])
    case Test(t, alive) =>
      var p := TaskOf(s, t);
      if !p.Testing? then s
      else if Expired(p.now, p.since) || !alive then
        Discard(s, p.raw).(task := s.task[t := Looking(p.key, p.now)])
      else HandOut(s, t, p.raw, p.key)
    case Create(t) =>
      var p := TaskOf(s, t);
      if !p.Creating? then s else HandOut(s.(created := s.created + 1), t, s.created, p.key)
    case CreateFails(t) => if TaskOf(s, t).Creating? then s.(task := s.task[t := Free]) else s
    case ReadFlag(t, w) =>
      if !TaskOf(s, t).Free? || w >= |s.wrappers| || s.wrappers[w].returned then s
      else s.(task := s.task[t := Closing(w)])
    case SetFlag(t) =>
      var p := TaskOf(s, t);
      if !p.Closing? || p.wrapper >= |s.wrappers| then s
      else
        var wrapper := s.wrappers[p.wrapper];
        s.(wrappers := s.wrappers[p.wrapper := wrapper.(returned := true)], ledger := s.ledger[wrapper.raw := InTask(t)],
           task := s.task[t := RollingBack(wrapper.key, wrapper.raw)])
    case Rollback(t, succeeds) =>
      var p := TaskOf(s, t);
      if !p.RollingBack? then s
      else if succeeds then s.(task := s.task[t := PuttingBack(p.key, p.raw)])
      else Discard(s, p.raw).(task := s.task[t := Free])
    case PutBack(t) =>
      var p := TaskOf(s, t);
      if !p.PuttingBack? then s
      else if |Bucket(s, p.key)| >= MAX_IDLE_PER_KEY then Discard(s, p.raw).(task := s.task[t := Free])
      else
        s.(idle := s.idle[p.key := Bucket(s, p.key) + [Entry(p.raw, s.clock)]],
           ledger := s.ledger[p.raw := InBucket(p.key)], task := s.task[t := Free])
    case CloseAll(t) =>
      s.(idle := map[], sweeps := s.sweeps[t := SweepOf(s, t) + IdleRaws(s)],
         ledger := map r | r in s.ledger :: if r in IdleRaws(s) then InSweep(t) else s.ledger[r])
    case SweepOne(t, raw) =>
      if raw !in SweepOf(s, t) then s else Discard(s, raw).(sweeps := s.sweeps[t := SweepOf(s, t) - {raw}])
    case Tick(passed) => s.(clock := s.clock + passed)
  }

  /** A thread sets the flag of a wrapper that another has set since it was read. */
  predicate Overlap(s: State, op: Op) {
    && op.SetFlag? && TaskOf(s, op.t).Closing?
    && TaskOf(s, op.t).wrapper < |s.wrappers| && s.wrappers[TaskOf(s, op.t).wrapper].returned
  }

  // ---------- the ledger agrees with the state ----------

  /** The connection that a task has in hand, if any. */
  function InHand(p: Task): Option<Raw> {
    if p.Testing? || p.RollingBack? || p.PuttingBack? then Some(p.raw) else None
  }

  /** Exactly the connections created so far have a place, and all that the state holds is where the ledger says. */
  ghost predicate LedgerOk(s: State) {
    && (forall r :: r in s.ledger <==> 0 <= r < s.created)
    && IdleAt(s) && WrappersAt(s) && TasksAt(s) && SweepsAt(s) && ClosedAt(s)
    && (forall w :: 0 <= w < |s.wrappers| ==> s.wrappers[w].raw in s.ledger)
  }

  ghost predicate SweepsAt(s: State) {
    forall t, r :: t in s.sweeps && r in s.sweeps[t] ==> At(s, r, InSweep(t))
  }

  ghost predicate ClosedAt(s: State) {
    forall r :: r in s.closed ==> At(s, r, Closed)
  }

  ghost predicate IdleAt(s: State) {
    forall k, i :: k in s.idle && 0 <= i < |s.idle[k]| ==> At(s, s.idle[k][i].raw, InBucket(k))
  }

  ghost predicate WrappersAt(s: State) {
    forall w :: 0 <= w < |s.wrappers| && !s.wrappers[w].returned ==> At(s, s.wrappers[w].raw, With(w))
  }

  ghost predicate TasksAt(s: State) {
    forall t :: t in s.task && InHand(s.task[t]).Some? ==> At(s, InHand(s.task[t]).value, InTask(t))
  }

  predicate At(s: State, r: Raw, place: Place) {
    r in s.ledger && s.ledger[r] == place
  }

  /** Everything that the ledger says is there. */
  ghost predicate HoldingsOk(s: State) {
    forall r :: r in s.ledger ==> Present(s, r, s.ledger[r])
  }

  /** The connection really is at the place. */
  ghost predicate Present(s: State, r: Raw, place: Place) {
    match place
    case InBucket(key) => HasRaw(Bucket(s, key), r)
    case With(w) => w < |s.wrappers| && s.wrappers[w].raw == r && !s.wrappers[w].returned
    case InTask(t) => InHand(TaskOf(s, t)) == Some(r)
    case InSweep(t) => r in SweepOf(s, t)
    case Closed => r in s.closed
  }

  ghost predicate HasRaw(bucket: seq<Entry>, r: Raw) {
    exists i :: 0 <= i < |bucket| && bucket[i].raw == r
  }

  lemma HasRawAfter(bucket: seq<Entry>, r: Raw, e: Entry)
    ensures bucket != [] && r != bucket[0].raw && HasRaw(bucket, r) ==> HasRaw(bucket[1..], r)
    ensures HasRaw(bucket, r) ==> HasRaw(bucket + [e], r)
    ensures HasRaw(bucket + [e], e.raw)
  {
    var longer := bucket + [e];
    assert longer[|bucket|] == e;
    if i :| 0 <= i < |bucket| && bucket[i].raw == r {
      assert longer[i] == bucket[i];
      if i > 0 {
        assert bucket[1..][i - 1] == bucket[i];
      }
    }
  }

  /** Buckets are within their bound, hold no connection twice, and are in order of return. */
  ghost predicate BucketsOk(s: State) {
    forall k :: k in s.idle ==> BucketOk(s.idle[k], s.clock)
  }

  ghost predicate BucketOk(bucket: seq<Entry>, clock: int) {
    && InOrder(bucket, clock)
    && (forall i, j :: 0 <= i < j < |bucket| ==> bucket[i].raw != bucket[j].raw)
  }

  ghost predicate InOrder(bucket: seq<Entry>, clock: int) {
    && |bucket| <= MAX_IDLE_PER_KEY
    && (forall i, j :: 0 <= i < j < |bucket| ==> bucket[i].since <= bucket[j].since)
    && (forall i :: 0 <= i < |bucket| ==> bucket[i].since <= clock)
  }

  ghost predicate PoolOk(s: State) {
    LedgerOk(s) && HoldingsOk(s) && BucketsOk(s)
  }

  // ---------- every step keeps it ----------

  lemma MoveTask(s: State, t: Thread, p: Task)
    requires LedgerOk(s) && HoldingsOk(s) && InHand(TaskOf(s, t)) == InHand(p)
    ensures LedgerOk(s.(task := s.task[t := p])) && HoldingsOk(s.(task := s.task[t := p]))
  {
    hide HasRaw;
    var n := s.(task := s.task[t := p]);
    forall r | r in n.ledger
      ensures Present(n, r, n.ledger[r])
    {
      assert Present(s, r, s.ledger[r]);
    }
  }

  lemma TakeLedger(s: State, t: Thread)
    requires PoolOk(s) && TaskOf(s, t).Looking? && Bucket(s, TaskOf(s, t).key) != []
    ensures LedgerOk(Step(s, Take(t)))
  {
    hide HoldingsOk;
    var n, key := Step(s, Take(t)), TaskOf(s, t).key;
    var taken := Bucket(s, key)[0].raw;
    assert At(s, taken, InBucket(key));
    Relocated(s, n, taken);
    forall k, i | k in n.idle && 0 <= i < |n.idle[k]|
      ensures At(n, n.idle[k][i].raw, InBucket(k))
    {
      assert k == key ==> n.idle[k][i] == s.idle[k][i + 1];
    }
  }

  /** Moving one connection leaves all others where they were. */
  lemma Relocated(s: State, n: State, moved: Raw)
    requires n.ledger.Keys == s.ledger.Keys
    requires forall r :: r in s.ledger && r != moved ==> n.ledger[r] == s.ledger[r]
    ensures forall r, place :: r != moved ==> At(n, r, place) == At(s, r, place)
  {
  }

  lemma TakeHoldings(s: State, t: Thread)
    requires PoolOk(s) && TaskOf(s, t).Looking? && Bucket(s, TaskOf(s, t).key) != []
    ensures HoldingsOk(Step(s, Take(t)))
  {
    hide HasRaw;
    var n, bucket := Step(s, Take(t)), Bucket(s, TaskOf(s, t).key);
    forall r | r in n.ledger
      ensures Present(n, r, n.ledger[r])
    {
      assert At(s, bucket[0].raw, InBucket(TaskOf(s, t).key));
      assert Present(s, r, s.ledger[r]);
      HasRawAfter(bucket, r, bucket[0]);
    }
  }

  lemma HandOutOk(s: State, t: Thread)
    requires PoolOk(s) && TaskOf(s, t).Testing?
    ensures var n := HandOut(s, t, TaskOf(s, t).raw, TaskOf(s, t).key); LedgerOk(n) && HoldingsOk(n)
  {
    hide HasRaw;
    var n := HandOut(s, t, TaskOf(s, t).raw, TaskOf(s, t).key);
    forall r | r in n.ledger
      ensures Present(n, r, n.ledger[r])
    {
      assert Present(s, r, s.ledger[r]);
    }
  }

  lemma CreateLedger(s: State, t: Thread)
    requires PoolOk(s) && TaskOf(s, t).Creating?
    ensures LedgerOk(Step(s, Create(t)))
  {
    hide HoldingsOk, BucketsOk;
    var n := Step(s, Create(t));
    assert forall r :: r in n.ledger <==> r in s.ledger || r == s.created;
    assert forall r, place :: At(s, r, place) ==> At(n, r, place);
    assert IdleAt(n);
    assert WrappersAt(n);
    assert TasksAt(n);
  }

  lemma CreateHoldings(s: State, t: Thread)
    requires PoolOk(s) && TaskOf(s, t).Creating?
    ensures HoldingsOk(Step(s, Create(t)))
  {
    hide HasRaw;
    var n := Step(s, Create(t));
    forall r | r in n.ledger
      ensures Present(n, r, n.ledger[r])
    {
      if r != s.created {
        assert Present(s, r, s.ledger[r]);
      }
    }
  }

  lemma DiscardLedger(s: State, t: Thread, p: Task)
    requires PoolOk(s) && InHand(TaskOf(s, t)).Some? && InHand(p).None?
    ensures LedgerOk(Discard(s, InHand(TaskOf(s, t)).value).(task := s.task[t := p]))
  {
    hide HoldingsOk, BucketsOk;
    var raw := InHand(TaskOf(s, t)).value;
    var n := Discard(s, raw).(task := s.task[t := p]);
    assert At(s, raw, InTask(t));
    Relocated(s, n, raw);
    assert IdleAt(n);
    assert WrappersAt(n);
    assert TasksAt(n);
  }

  lemma DiscardHoldings(s: State, t: Thread, p: Task)
    requires PoolOk(s) && InHand(TaskOf(s, t)).Some? && InHand(p).None?
    ensures HoldingsOk(Discard(s, InHand(TaskOf(s, t)).value).(task := s.task[t := p]))
  {
    hide HasRaw;
    var n := Discard(s, InHand(TaskOf(s, t)).value).(task := s.task[t := p]);
    forall r | r in n.ledger
      ensures Present(n, r, n.ledger[r])
    {
      assert At(s, InHand(TaskOf(s, t)).value, InTask(t));
      assert Present(s, r, s.ledger[r]);
    }
  }

  lemma SetFlagLedger(s: State, t: Thread)
    requires PoolOk(s) && TaskOf(s, t).Closing? && TaskOf(s, t).wrapper < |s.wrappers| && !Overlap(s, SetFlag(t))
    ensures LedgerOk(Step(s, SetFlag(t)))
  {
    hide HoldingsOk, BucketsOk;
    var n, w := Step(s, SetFlag(t)), TaskOf(s, t).wrapper;
    var raw := s.wrappers[w].raw;
    assert At(s, raw, With(w));
    Relocated(s, n, raw);
    assert IdleAt(n);
    assert WrappersAt(n);
    assert TasksAt(n);
    assert SweepsAt(n);
  }

  lemma SetFlagHoldings(s: State, t: Thread)
    requires PoolOk(s) && TaskOf(s, t).Closing? && TaskOf(s, t).wrapper < |s.wrappers| && !Overlap(s, SetFlag(t))
    ensures HoldingsOk(Step(s, SetFlag(t)))
  {
    hide HasRaw;
    var n, w := Step(s, SetFlag(t)), TaskOf(s, t).wrapper;
    forall r | r in n.ledger
      ensures Present(n, r, n.ledger[r])
    {
      assert At(s, s.wrappers[w].raw, With(w));
      assert Present(s, r, s.ledger[r]);
    }
  }

  lemma PutBackLedger(s: State, t: Thread)
    requires PoolOk(s) && TaskOf(s, t).PuttingBack? && |Bucket(s, TaskOf(s, t).key)| < MAX_IDLE_PER_KEY
    ensures LedgerOk(Step(s, PutBack(t)))
  {
    hide HoldingsOk, BucketsOk;
    var n, p := Step(s, PutBack(t)), TaskOf(s, t);
    assert At(s, p.raw, InTask(t));
    Relocated(s, n, p.raw);
    assert IdleAt(n);
  }

  lemma PutBackHoldings(s: State, t: Thread)
    requires PoolOk(s) && TaskOf(s, t).PuttingBack? && |Bucket(s, TaskOf(s, t).key)| < MAX_IDLE_PER_KEY
    ensures HoldingsOk(Step(s, PutBack(t)))
  {
    hide HasRaw;
    var n, p := Step(s, PutBack(t)), TaskOf(s, t);
    assert At(s, p.raw, InTask(t));
    forall r | r in n.ledger
      ensures Present(n, r, n.ledger[r])
    {
      assert Present(s, r, s.ledger[r]);
      HasRawAfter(Bucket(s, p.key), r, Entry(p.raw, s.clock));
    }
  }

  lemma CloseAllLedger(s: State, t: Thread)
    requires PoolOk(s)
    ensures LedgerOk(Step(s, CloseAll(t)))
  {
    forall r | r in s.ledger
      ensures r in IdleRaws(s) <==> s.ledger[r].InBucket?
    {
      IdleRaw(s, r);
    }
    IdleCreated(s);
    hide IdleRaws, HoldingsOk, BucketsOk;
  }

  lemma IdleCreated(s: State)
    requires PoolOk(s)
    ensures forall r :: r in IdleRaws(s) ==> r in s.ledger
  {
    forall r | r in IdleRaws(s)
      ensures r in s.ledger
    {
      var k, i :| k in s.idle && 0 <= i < |s.idle[k]| && s.idle[k][i].raw == r;
      assert At(s, s.idle[k][i].raw, InBucket(k));
    }
  }

  lemma CloseAllHoldings(s: State, t: Thread)
    requires PoolOk(s)
    ensures HoldingsOk(Step(s, CloseAll(t)))
  {
    var n := Step(s, CloseAll(t));
    forall r | r in n.ledger
      ensures Present(n, r, n.ledger[r])
    {
      assert Present(s, r, s.ledger[r]);
      IdleRaw(s, r);
    }
  }

  lemma SweepOk(s: State, t: Thread, raw: Raw)
    requires PoolOk(s) && raw in SweepOf(s, t)
    ensures LedgerOk(Step(s, SweepOne(t, raw))) && HoldingsOk(Step(s, SweepOne(t, raw)))
  {
    hide HasRaw;
    var n := Step(s, SweepOne(t, raw));
    assert At(s, raw, InSweep(t));
    Relocated(s, n, raw);
    forall r | r in n.ledger
      ensures Present(n, r, n.ledger[r])
    {
      assert Present(s, r, s.ledger[r]);
    }
  }

  lemma IdleRaw(s: State, r: Raw)
    requires PoolOk(s) && r in s.ledger
    ensures r in IdleRaws(s) <==> s.ledger[r].InBucket?
  {
    assert Present(s, r, s.ledger[r]);
    if s.ledger[r].InBucket? {
      var k := s.ledger[r].key;
      var i :| 0 <= i < |Bucket(s, k)| && Bucket(s, k)[i].raw == r;
      assert k in s.idle && s.idle[k][i].raw == r;
    }
    if k, i :| k in s.idle && 0 <= i < |s.idle[k]| && s.idle[k][i].raw == r {
      assert At(s, s.idle[k][i].raw, InBucket(k));
    }
  }

  lemma BucketLater(bucket: seq<Entry>, clock: int, passed: nat)
    requires BucketOk(bucket, clock)
    ensures BucketOk(bucket, clock + passed)
  {
  }

  lemma BucketTail(bucket: seq<Entry>, clock: int)
    requires bucket != [] && BucketOk(bucket, clock)
    ensures BucketOk(bucket[1..], clock)
  {
  }

  lemma BucketSnoc(bucket: seq<Entry>, clock: int, raw: Raw)
    requires BucketOk(bucket, clock) && |bucket| < MAX_IDLE_PER_KEY
    requires forall i :: 0 <= i < |bucket| ==> bucket[i].raw != raw
    ensures BucketOk(bucket + [Entry(raw, clock)], clock)
  {
  }

  lemma EmptyBucket(clock: int)
    ensures BucketOk([], clock)
  {
  }

  lemma StepBuckets(s: State, op: Op)
    requires PoolOk(s)
    ensures BucketsOk(Step(s, op))
  {
    hide BucketOk, HoldingsOk;
    EmptyBucket(s.clock);
    if op.Take? && TaskOf(s, op.t).Looking? && Bucket(s, TaskOf(s, op.t).key) != [] {
      BucketTail(Bucket(s, TaskOf(s, op.t).key), s.clock);
    } else if op.PutBack? && TaskOf(s, op.t).PuttingBack? {
      var p := TaskOf(s, op.t);
      assert At(s, p.raw, InTask(op.t));
      assert forall i :: 0 <= i < |Bucket(s, p.key)| ==> At(s, Bucket(s, p.key)[i].raw, InBucket(p.key));
      if |Bucket(s, p.key)| < MAX_IDLE_PER_KEY {
        BucketSnoc(Bucket(s, p.key), s.clock, p.raw);
      }
    } else if op.Tick? {
      forall k | k in s.idle
        ensures BucketOk(s.idle[k], s.clock + op.passed)
      {
        BucketLater(s.idle[k], s.clock, op.passed);
      }
    }
  }

  lemma AskingOk(s: State, op: Op)
    requires PoolOk(s) && (op.Ask? || op.Take? || op.Test? || op.Create? || op.CreateFails?)
    ensures LedgerOk(Step(s, op)) && HoldingsOk(Step(s, op))
  {
    hide LedgerOk, HoldingsOk, BucketsOk, Discard, HandOut, Expired;
    match op
    case Ask(t, key) => if TaskOf(s, t).Free? { MoveTask(s, t, Looking(key, s.clock)); }
    case Take(t) =>
      if TaskOf(s, t).Looking? {
        if Bucket(s, TaskOf(s, t).key) == [] {
          MoveTask(s, t, Creating(TaskOf(s, t).key));
        } else {
          TakeLedger(s, t);
          TakeHoldings(s, t);
        }
      }
    case Test(t, alive) =>
      var p := TaskOf(s, t);
      if p.Testing? {
        HandOutOk(s, t);
        DiscardLedger(s, t, Looking(p.key, p.now));
        DiscardHoldings(s, t, Looking(p.key, p.now));
      }
    case Create(t) => if TaskOf(s, t).Creating? { CreateLedger(s, t); CreateHoldings(s, t); }
    case CreateFails(t) => if TaskOf(s, t).Creating? { MoveTask(s, t, Free); }
  }

  lemma ClosingOk(s: State, op: Op)
    requires PoolOk(s) && !Overlap(s, op) && (op.ReadFlag? || op.SetFlag? || op.Rollback? || op.PutBack?)
    ensures LedgerOk(Step(s, op)) && HoldingsOk(Step(s, op))
  {
    hide LedgerOk, HoldingsOk, BucketsOk, Discard;
    match op
    case ReadFlag(t, w) =>
      if TaskOf(s, t).Free? {
        MoveTask(s, t, Closing(w));
      }
    case SetFlag(t) =>
      if TaskOf(s, t).Closing? && TaskOf(s, t).wrapper < |s.wrappers| {
        SetFlagLedger(s, t);
        SetFlagHoldings(s, t);
      }
    case Rollback(t, succeeds) =>
      var p := TaskOf(s, t);
      if p.RollingBack? {
        MoveTask(s, t, PuttingBack(p.key, p.raw));
        DiscardLedger(s, t, Free);
        DiscardHoldings(s, t, Free);
      }
    case PutBack(t) =>
      var p := TaskOf(s, t);
      if p.PuttingBack? {
        if |Bucket(s, p.key)| < MAX_IDLE_PER_KEY {
          PutBackLedger(s, t);
          PutBackHoldings(s, t);
        } else {
          DiscardLedger(s, t, Free);
          DiscardHoldings(s, t, Free);
        }
      }
  }

  lemma StepPool(s: State, op: Op)
    requires PoolOk(s) && !Overlap(s, op)
    ensures PoolOk(Step(s, op))
  {
    StepBuckets(s, op);
    hide LedgerOk, HoldingsOk, BucketsOk, Discard, IdleRaws;
    match op
    case Ask(_, _) => AskingOk(s, op);
    case Take(_) => AskingOk(s, op);
    case Test(_, _) => AskingOk(s, op);
    case Create(_) => AskingOk(s, op);
    case CreateFails(_) => AskingOk(s, op);
    case ReadFlag(_, _) => ClosingOk(s, op);
    case SetFlag(_) => ClosingOk(s, op);
    case Rollback(_, _) => ClosingOk(s, op);
    case PutBack(_) => ClosingOk(s, op);
    case CloseAll(t) =>
      CloseAllLedger(s, t);
      CloseAllHoldings(s, t);
    case SweepOne(t, raw) =>
      if raw in SweepOf(s, t) {
        SweepOk(s, t, raw);
      }
    case Tick(passed) => TickOk(s, passed);
  }

  lemma TickOk(s: State, passed: nat)
    requires LedgerOk(s) && HoldingsOk(s)
    ensures LedgerOk(s.(clock := s.clock + passed)) && HoldingsOk(s.(clock := s.clock + passed))
  {
    var n := s.(clock := s.clock + passed);
    forall r | r in n.ledger
      ensures Present(n, r, n.ledger[r])
    {
      assert Present(s, r, s.ledger[r]);
    }
  }

  // ---------- every run ----------

  function Run(ops: seq<Op>): State {
    if ops == [] then INITIAL else Step(Run(ops[..|ops| - 1]), ops[|ops| - 1])
  }

  /** No thread of the run sets a flag that another has set since it was read. */
  ghost predicate NoOverlap(ops: seq<Op>) {
    forall i :: 0 <= i < |ops| ==> !Overlap(Run(ops[..i]), ops[i])
  }

  lemma {:induction false} FrontNoOverlap(ops: seq<Op>, n: nat)
    requires NoOverlap(ops) && n <= |ops|
    ensures NoOverlap(ops[..n])
    ensures n < |ops| ==> !Overlap(Run(ops[..n]), ops[n])
  {
    hide Run, Overlap;
    forall i | 0 <= i < n
      ensures !Overlap(Run(ops[..n][..i]), ops[..n][i])
    {
      assert ops[..n][..i] == ops[..i];
    }
  }

  lemma {:induction false} RunPool(ops: seq<Op>)
    requires NoOverlap(ops)
    ensures PoolOk(Run(ops))
  {
    hide Step, NoOverlap, Overlap;
    if ops != [] {
      FrontNoOverlap(ops, |ops| - 1);
      RunPool(ops[..|ops| - 1]);
      hide PoolOk;
      StepPool(Run(ops[..|ops| - 1]), ops[|ops| - 1]);
    }
  }

  // ---------- conservation ----------

  /** A single place in the actual state, without the ledger. */
  datatype Spot = IdleSpot(key: Key, index: nat) | HeldSpot(wrapper: nat) | HandSpot(thread: Thread) | SweepSpot(thread: Thread)
                | ClosedSpot

  predicate IsAt(s: State, r: Raw, spot: Spot) {
    match spot
    case IdleSpot(key, i) => i < |Bucket(s, key)| && Bucket(s, key)[i].raw == r
    case HeldSpot(w) => w < |s.wrappers| && s.wrappers[w].raw == r && !s.wrappers[w].returned
    case HandSpot(t) => InHand(TaskOf(s, t)) == Some(r)
    case SweepSpot(t) => r in SweepOf(s, t)
    case ClosedSpot => r in s.closed
  }

  /** Every connection ever created is in exactly one place: at one position of an idle bucket, with one unreturned wrapper,
      in the hands of one thread inside the module, in what one thread in `close_all` has yet to close, or closed. */
  ghost predicate Conserved(s: State) {
    forall r :: 0 <= r < s.created ==> OnePlace(s, r)
  }

  ghost predicate OnePlace(s: State, r: Raw) {
    (exists spot :: IsAt(s, r, spot)) && (forall x, y :: IsAt(s, r, x) && IsAt(s, r, y) ==> x == y)
  }

  /** Where the ledger says a connection is. */
  predicate Matches(place: Place, spot: Spot) {
    match spot
    case IdleSpot(key, _) => place == InBucket(key)
    case HeldSpot(w) => place == With(w)
    case HandSpot(t) => place == InTask(t)
    case SweepSpot(t) => place == InSweep(t)
    case ClosedSpot => place == Closed
  }

  lemma SpotMatches(s: State, r: Raw, spot: Spot)
    requires PoolOk(s) && IsAt(s, r, spot)
    ensures r in s.ledger && Matches(s.ledger[r], spot)
  {
    match spot
    case IdleSpot(key, i) => assert At(s, s.idle[key][i].raw, InBucket(key));
    case HeldSpot(w) => assert At(s, s.wrappers[w].raw, With(w));
    case HandSpot(t) => assert At(s, InHand(s.task[t]).value, InTask(t));
    case SweepSpot(t) => assert At(s, r, InSweep(t));
    case ClosedSpot => assert At(s, r, Closed);
  }

  lemma SpotExists(s: State, r: Raw) returns (spot: Spot)
    requires PoolOk(s) && r in s.ledger
    ensures IsAt(s, r, spot)
  {
    assert Present(s, r, s.ledger[r]);
    match s.ledger[r]
    case InBucket(key) =>
      var i :| 0 <= i < |Bucket(s, key)| && Bucket(s, key)[i].raw == r;
      spot := IdleSpot(key, i);
    case With(w) => spot := HeldSpot(w);
    case InTask(t) => spot := HandSpot(t);
    case InSweep(t) => spot := SweepSpot(t);
    case Closed => spot := ClosedSpot;
  }

  lemma PoolConserved(s: State)
    requires PoolOk(s)
    ensures Conserved(s)
  {
    forall r | 0 <= r < s.created
      ensures OnePlace(s, r)
    {
      PlacedOnce(s, r);
    }
  }

  lemma PlacedOnce(s: State, r: Raw)
    requires PoolOk(s) && r in s.ledger
    ensures OnePlace(s, r)
  {
    hide IsAt, PoolOk;
    var spot := SpotExists(s, r);
    forall x, y | IsAt(s, r, x) && IsAt(s, r, y)
      ensures x == y
    {
      SpotMatches(s, r, x);
      SpotMatches(s, r, y);
      SamePlace(s, r, x, y);
    }
  }

  lemma SamePlace(s: State, r: Raw, x: Spot, y: Spot)
    requires PoolOk(s) && IsAt(s, r, x) && IsAt(s, r, y)
    requires r in s.ledger && Matches(s.ledger[r], x) && Matches(s.ledger[r], y)
    ensures x == y
  {
    if x.IdleSpot? {
      assert BucketOk(Bucket(s, x.key), s.clock);
    }
  }

  /** Overlapping closes put a connection into a second place. */
  lemma OverlapBreaks(s: State, op: Op)
    requires PoolOk(s) && Overlap(s, op)
    ensures !Conserved(Step(s, op))
  {
    var w, t := TaskOf(s, op.t).wrapper, op.t;
    var r := s.wrappers[w].raw;
    assert r in s.ledger;
    var x := SpotExists(s, r);
    SpotMatches(s, r, x);
    var n := Step(s, op);
    hide PoolOk, Conserved;
    assert InHand(TaskOf(s, t)) == None;
    assert IsAt(n, r, HandSpot(t));
    assert IsAt(n, r, x) && x != HandSpot(t);
    assert 0 <= r < n.created by { CreatedRaw(s, r); }
    TwoSpots(n, r, x, HandSpot(t));
  }

  lemma CreatedRaw(s: State, r: Raw)
    requires PoolOk(s) && r in s.ledger
    ensures 0 <= r < s.created
  {
  }

  lemma TwoSpots(s: State, r: Raw, x: Spot, y: Spot)
    requires 0 <= r < s.created && IsAt(s, r, x) && IsAt(s, r, y) && x != y
    ensures !Conserved(s)
  {
    hide IsAt;
    assert !OnePlace(s, r);
  }

  /** Over any run every connection is in exactly one place at every moment if and only if no thread sets a flag that
      another has set since it was read. */
  lemma {:induction false} ConservedExactly(ops: seq<Op>)
    ensures (forall n :: 0 <= n <= |ops| ==> Conserved(Run(ops[..n]))) <==> NoOverlap(ops)
  {
    hide Run, Conserved, NoOverlap, Overlap, PoolOk, Step;
    if NoOverlap(ops) {
      forall n | 0 <= n <= |ops|
        ensures Conserved(Run(ops[..n]))
      {
        FrontNoOverlap(ops, n);
        RunPool(ops[..n]);
        PoolConserved(Run(ops[..n]));
      }
    } else {
      var i := FirstOverlap(ops);
      RunPool(ops[..i]);
      OverlapBreaks(Run(ops[..i]), ops[i]);
      LastStep(ops[..i + 1]);
      assert ops[..i + 1][..i] == ops[..i];
    }
  }

  lemma {:induction false} LastStep(ops: seq<Op>)
    requires ops != []
    ensures Run(ops) == Step(Run(ops[..|ops| - 1]), ops[|ops| - 1])
  {
  }

  lemma {:induction false} FirstOverlap(ops: seq<Op>) returns (i: nat)
    requires !NoOverlap(ops)
    ensures i < |ops| && Overlap(Run(ops[..i]), ops[i]) && NoOverlap(ops[..i])
  {
    hide Run, Overlap;
    var k :| 0 <= k < |ops| && Overlap(Run(ops[..k]), ops[k]);
    if NoOverlap(ops[..k]) {
      i := k;
    } else {
      i := FirstOverlap(ops[..k]);
      assert ops[..k][..i] == ops[..i];
    }
  }

  // ---------- closes that exclude each other ----------

  /** No two threads are between reading and setting the flag of one wrapper. */
  ghost predicate Exclusive(s: State) {
    forall t, u :: TaskOf(s, t).Closing? && TaskOf(s, u).Closing? && TaskOf(s, t).wrapper == TaskOf(s, u).wrapper ==> t == u
  }

  ghost predicate FlagsFresh(s: State) {
    forall t :: TaskOf(s, t).Closing? ==>
      TaskOf(s, t).wrapper < |s.wrappers| && !s.wrappers[TaskOf(s, t).wrapper].returned
  }

  lemma FreshStep(s: State, op: Op)
    requires Exclusive(s) && FlagsFresh(s)
    ensures FlagsFresh(Step(s, op)) && !Overlap(s, op)
  {
    hide IdleRaws, Expired;
    var n := Step(s, op);
    forall t | TaskOf(n, t).Closing?
      ensures TaskOf(n, t).wrapper < |n.wrappers| && !n.wrappers[TaskOf(n, t).wrapper].returned
    {
      assert TaskOf(n, t) == TaskOf(s, t) || op == ReadFlag(t, TaskOf(n, t).wrapper);
    }
  }

  /** So when at no moment two threads are inside `close` of one wrapper, nothing overlaps and every connection is
      conserved. */
  lemma {:induction false} ExclusiveCloses(ops: seq<Op>)
    requires forall n :: 0 <= n <= |ops| ==> Exclusive(Run(ops[..n]))
    ensures NoOverlap(ops) && FlagsFresh(Run(ops))
  {
    hide Run, Step, Exclusive, Overlap, FlagsFresh;
    if ops == [] {
      NothingClosing();
    } else {
      var front := ops[..|ops| - 1];
      forall n | 0 <= n <= |front|
        ensures Exclusive(Run(front[..n]))
      {
        assert front[..n] == ops[..n];
      }
      ExclusiveCloses(front);
      assert ops[..|ops| - 1] == front;
      FreshStep(Run(front), ops[|ops| - 1]);
      LastStep(ops);
      forall i | 0 <= i < |ops|
        ensures !Overlap(Run(ops[..i]), ops[i])
      {
        if i < |front| {
          assert front[..i] == ops[..i];
          assert !Overlap(Run(front[..i]), front[i]);
        }
      }
    }
  }

  lemma NothingClosing()
    ensures FlagsFresh(Run([]))
  {
  }

  lemma {:induction false} RunSnoc(ops: seq<Op>, op: Op)
    ensures Run(ops + [op]) == Step(Run(ops), op)
  {
    hide Step;
    assert (ops + [op])[..|ops|] == ops;
  }

  /** A thread asks for a connection of an empty pool: one is made for it. */
  lemma {:induction false} FirstConnection()
    ensures var s := Run([Ask(1, "k")] + [Take(1)] + [Create(1)]);
            && s.idle == map[] && s.wrappers == [Wrapper(0, "k", false)] && s.clock == 0
            && TaskOf(s, 1) == Free && TaskOf(s, 2) == Free
  {
    assert Run([]) == INITIAL;
    hide Run;
    assert [] + [Ask(1, "k")] == [Ask(1, "k")];
    RunSnoc([], Ask(1, "k"));
    RunSnoc([Ask(1, "k")], Take(1));
    RunSnoc([Ask(1, "k")] + [Take(1)], Create(1));
  }

  lemma {:induction false} BothSetFlag(ops: seq<Op>)
    requires var s := Run(ops);
             && s.idle == map[] && s.wrappers == [Wrapper(0, "k", false)] && s.clock == 0
             && TaskOf(s, 1) == Free && TaskOf(s, 2) == Free
    ensures var s := Run(ops + [ReadFlag(1, 0)] + [ReadFlag(2, 0)] + [SetFlag(1)] + [SetFlag(2)]);
            && s.idle == map[] && s.clock == 0
            && TaskOf(s, 1) == RollingBack("k", 0) && TaskOf(s, 2) == RollingBack("k", 0)
  {
    hide Run;
    RunSnoc(ops, ReadFlag(1, 0));
    RunSnoc(ops + [ReadFlag(1, 0)], ReadFlag(2, 0));
    RunSnoc(ops + [ReadFlag(1, 0)] + [ReadFlag(2, 0)], SetFlag(1));
    RunSnoc(ops + [ReadFlag(1, 0)] + [ReadFlag(2, 0)] + [SetFlag(1)], SetFlag(2));
  }

  lemma {:induction false} BothPutBack(ops: seq<Op>)
    requires var s := Run(ops);
             && s.idle == map[] && s.clock == 0
             && TaskOf(s, 1) == RollingBack("k", 0) && TaskOf(s, 2) == RollingBack("k", 0)
    ensures var s := Run(ops + [Rollback(1, true)] + [Rollback(2, true)] + [PutBack(1)] + [PutBack(2)]);
            Bucket(s, "k") == [Entry(0, 0), Entry(0, 0)]
  {
    hide Run;
    RunSnoc(ops, Rollback(1, true));
    RunSnoc(ops + [Rollback(1, true)], Rollback(2, true));
    RunSnoc(ops + [Rollback(1, true)] + [Rollback(2, true)], PutBack(1));
    RunSnoc(ops + [Rollback(1, true)] + [Rollback(2, true)] + [PutBack(1)], PutBack(2));
  }

  /** Two threads close one wrapper at once: in the end its connection stands twice in the bucket. */
  lemma {:induction false} OverlappingCloses() returns (ops: seq<Op>)
    ensures Bucket(Run(ops), "k") == [Entry(0, 0), Entry(0, 0)]
  {
    hide Run;
    ops := [Ask(1, "k")] + [Take(1)] + [Create(1)];
    FirstConnection();
    BothSetFlag(ops);
    ops := ops + [ReadFlag(1, 0)] + [ReadFlag(2, 0)] + [SetFlag(1)] + [SetFlag(2)];
    BothPutBack(ops);
    ops := ops + [Rollback(1, true)] + [Rollback(2, true)] + [PutBack(1)] + [PutBack(2)];
  }

  /** No connection is with two callers, or twice in the buckets. */
  lemma {:induction false} NoSharing(ops: seq<Op>, v: nat, w: nat, k: Key, i: nat, l: Key, j: nat)
    requires NoOverlap(ops)
    ensures var s := Run(ops);
            && (v < |s.wrappers| && w < |s.wrappers| && !s.wrappers[v].returned && !s.wrappers[w].returned ==>
                  s.wrappers[v].raw == s.wrappers[w].raw ==> v == w)
            && (i < |Bucket(s, k)| && j < |Bucket(s, l)| && Bucket(s, k)[i].raw == Bucket(s, l)[j].raw ==>
                  k == l && i == j)
  {
    hide Run, Step, NoOverlap;
    RunPool(ops);
    var s := Run(ops);
    if v < |s.wrappers| && w < |s.wrappers| && !s.wrappers[v].returned && !s.wrappers[w].returned {
      assert At(s, s.wrappers[v].raw, With(v)) && At(s, s.wrappers[w].raw, With(w));
    }
    if i < |Bucket(s, k)| && j < |Bucket(s, l)| && Bucket(s, k)[i].raw == Bucket(s, l)[j].raw {
      assert At(s, s.idle[k][i].raw, InBucket(k)) && At(s, s.idle[l][j].raw, InBucket(l));
      assert BucketOk(s.idle[k], s.clock);
    }
  }

  // ---------- what holds even when closes overlap ----------

  ghost predicate Orderly(s: State) {
    forall k :: k in s.idle ==> InOrder(s.idle[k], s.clock)
  }

  lemma OrderlyStep(s: State, op: Op)
    requires Orderly(s)
    ensures Orderly(Step(s, op))
  {
    hide InOrder;
    NothingInOrder(s.clock);
    if op.Take? && TaskOf(s, op.t).Looking? && Bucket(s, TaskOf(s, op.t).key) != [] {
      InOrderTail(Bucket(s, TaskOf(s, op.t).key), s.clock);
    } else if op.PutBack? && TaskOf(s, op.t).PuttingBack? {
      var p := TaskOf(s, op.t);
      if |Bucket(s, p.key)| < MAX_IDLE_PER_KEY {
        InOrderSnoc(Bucket(s, p.key), s.clock, p.raw);
      }
    } else if op.Tick? {
      forall k | k in s.idle
        ensures InOrder(s.idle[k], s.clock + op.passed)
      {
        InOrderLater(s.idle[k], s.clock, op.passed);
      }
    }
  }

  lemma NothingInOrder(clock: int)
    ensures InOrder([], clock)
  {
  }

  lemma InOrderTail(bucket: seq<Entry>, clock: int)
    requires bucket != [] && InOrder(bucket, clock)
    ensures InOrder(bucket[1..], clock)
  {
  }

  lemma InOrderSnoc(bucket: seq<Entry>, clock: int, raw: Raw)
    requires InOrder(bucket, clock) && |bucket| < MAX_IDLE_PER_KEY
    ensures InOrder(bucket + [Entry(raw, clock)], clock)
  {
  }

  lemma InOrderLater(bucket: seq<Entry>, clock: int, passed: nat)
    requires InOrder(bucket, clock)
    ensures InOrder(bucket, clock + passed)
  {
  }

  /** In every run, overlapping closes or not, each bucket holds at most four connections, in order of return. */
  lemma {:induction false} RunOrderly(ops: seq<Op>)
    ensures Orderly(Run(ops))
  {
    hide Step;
    if ops != [] {
      RunOrderly(ops[..|ops| - 1]);
      hide Orderly;
      OrderlyStep(Run(ops[..|ops| - 1]), ops[|ops| - 1]);
    }
  }

  // ---------- closed and returned ----------

  predicate IsClosed(s: State, r: Raw) {
    At(s, r, Closed)
  }

  /** A closed connection stays closed. */
  lemma StepClosed(s: State, op: Op, r: Raw)
    requires PoolOk(s) && !Overlap(s, op) && IsClosed(s, r)
    ensures IsClosed(Step(s, op), r)
  {
    hide HoldingsOk;
    if op.Take? && TaskOf(s, op.t).Looking? && Bucket(s, TaskOf(s, op.t).key) != [] {
      assert At(s, Bucket(s, TaskOf(s, op.t).key)[0].raw, InBucket(TaskOf(s, op.t).key));
    } else if op.SetFlag? && TaskOf(s, op.t).Closing? && TaskOf(s, op.t).wrapper < |s.wrappers| {
      assert At(s, s.wrappers[TaskOf(s, op.t).wrapper].raw, With(TaskOf(s, op.t).wrapper));
    }
  }

  /** A closed connection is never handed out again. */
  lemma {:induction false} ClosedForever(ops: seq<Op>, i: nat, r: Raw)
    requires NoOverlap(ops) && i <= |ops| && r in Run(ops[..i]).closed
    ensures r in Run(ops).closed
    decreases |ops|
  {
    FrontNoOverlap(ops, i);
    RunPool(ops[..i]);
    assert IsClosed(Run(ops[..i]), r);
    hide Run, Step, IsClosed, NoOverlap;
    StaysClosed(ops, i, r);
    RunPool(ops);
    ClosedReally(Run(ops), r);
  }

  lemma ClosedReally(s: State, r: Raw)
    requires PoolOk(s) && IsClosed(s, r)
    ensures r in s.closed
  {
    assert Present(s, r, s.ledger[r]);
  }

  lemma {:induction false} StaysClosed(ops: seq<Op>, i: nat, r: Raw)
    requires NoOverlap(ops) && i <= |ops| && IsClosed(Run(ops[..i]), r)
    ensures IsClosed(Run(ops), r)
    decreases |ops|
  {
    hide Step, IsClosed, NoOverlap, Overlap;
    if i == |ops| {
      assert ops[..i] == ops;
    } else {
      var front := ops[..|ops| - 1];
      assert front[..i] == ops[..i];
      FrontNoOverlap(ops, |ops| - 1);
      StaysClosed(front, i, r);
      RunPool(front);
      hide PoolOk;
      StepClosed(Run(front), ops[|ops| - 1], r);
    }
  }

  lemma StepReturned(s: State, op: Op, w: nat)
    requires w < |s.wrappers| && s.wrappers[w].returned
    ensures w < |Step(s, op).wrappers| && Step(s, op).wrappers[w].returned
  {
  }

  lemma CloseReturned(s: State, t: Thread, w: nat)
    requires w < |s.wrappers| && s.wrappers[w].returned
    ensures Step(s, ReadFlag(t, w)) == s
  {
  }

  /** A `close()` that begins when the flag of the wrapper has been set, however much later and by whichever thread, changes
      nothing: it ends at the reading of the flag. */
  lemma {:induction false} SecondCloseIdle(ops: seq<Op>, i: nat, w: nat, t: Thread)
    requires i <= |ops| && w < |Run(ops[..i]).wrappers| && Run(ops[..i]).wrappers[w].returned
    ensures w < |Run(ops).wrappers| && Run(ops).wrappers[w].returned
    ensures Step(Run(ops), ReadFlag(t, w)) == Run(ops)
    decreases |ops|
  {
    hide Step;
    if i == |ops| {
      assert ops[..i] == ops;
    } else {
      var front := ops[..|ops| - 1];
      assert front[..i] == ops[..i];
      SecondCloseIdle(front, i, w, t);
      StepReturned(Run(front), ops[|ops| - 1], w);
    }
    CloseReturned(Run(ops), t, w);
  }

  // ---------- one caller at a time ----------

  /** The module's functions as a single thread runs them. */
  class Pool {
    var idle: map<Key, seq<Entry>>

    ghost predicate Valid(clock: int)
      reads this
    {
      forall k :: k in idle ==> BucketOk(idle[k], clock)
    }

    function Waiting(key: Key): seq<Entry>
      reads this
    {
      if key in idle then idle[key] else []
    }

    ghost predicate OthersSame(before: map<Key, seq<Entry>>, key: Key)
      reads this
    {
      forall k :: k != key ==> (k in idle <==> k in before) && (k in idle ==> idle[k] == before[k])
    }

    /** The part under the lock: takes the oldest idle connection of the key. */
    method TakeOldest(key: Key, ghost clock: int) returns (item: Option<Entry>)
      requires Valid(clock)
      modifies this
      ensures Valid(clock) && OthersSame(old(idle), key)
      ensures item.None? ==> old(Waiting(key)) == [] && Waiting(key) == []
      ensures item.Some? ==> old(Waiting(key)) == [item.value] + Waiting(key)
    {
      var bucket := Waiting(key);
      if bucket == [] {
        return None;
      }
      item := Some(bucket[0]);
      BucketTail(bucket, clock);
      idle := idle[key := bucket[1..]];
    }

    /** Takes idle connections, oldest first, until one is usable, closing the others; else makes a new one. When one
        was taken, none that has expired is left waiting. */
    method PooledConnect(key: Key, now: int, alive: Raw -> bool, made: Raw) returns (raw: Raw, closed: seq<Raw>)
      requires Valid(now)
      modifies this
      ensures Valid(now) && OthersSame(old(idle), key)
      ensures var bucket := old(Waiting(key));
              var n := FirstUsable(bucket, now, alive);
              && closed == Raws(bucket[..n])
              && (if n < |bucket| then
                    && raw == bucket[n].raw && Waiting(key) == bucket[n + 1..]
                    && forall i :: 0 <= i < |Waiting(key)| ==> now - Waiting(key)[i].since <= 300
                  else raw == made && Waiting(key) == [])
    {
      hide Expired, BucketOk, FirstUsable, Raws;
      closed := [];
      ghost var bucket := Waiting(key);
      ghost var n := 0;
      NoneTaken(bucket, now, alive);
      assert bucket != [] ==> BucketOk(bucket, now);
      while true
        invariant n <= |bucket| && Waiting(key) == bucket[n..]
        invariant closed == Raws(bucket[..n]) && n <= FirstUsable(bucket, now, alive)
        invariant Valid(now) && OthersSame(old(idle), key)
        decreases |bucket| - n
      {
        var item := TakeOldest(key, now);
        if item.None? {
          FirstUsableWithin(bucket, now, alive);
          return made, closed;
        }
        assert item.value == bucket[n] && Waiting(key) == bucket[n + 1..];
        OneTaken(bucket, now, alive, n);
        if Expired(now, item.value.since) || !alive(item.value.raw) {
          closed := closed + [item.value.raw];
          n := n + 1;
        } else {
          RestUnexpired(bucket, now, n, Waiting(key));
          return item.value.raw, closed;
        }
      }
    }

    /** Puts a connection back after its rollback; closes it when the rollback failed or the bucket is full. */
    method Release(key: Key, raw: Raw, rolledBack: bool, now: int) returns (closed: bool)
      requires Valid(now)
      requires forall i :: 0 <= i < |Waiting(key)| ==> Waiting(key)[i].raw != raw
      modifies this
      ensures Valid(now)
      ensures closed == (!rolledBack || |old(Waiting(key))| >= 4)
      ensures Waiting(key) == if closed then old(Waiting(key)) else old(Waiting(key)) + [Entry(raw, now)]
      ensures OthersSame(old(idle), key)
    {
      if !rolledBack {
        return true;
      }
      var bucket := Waiting(key);
      if |bucket| >= MAX_IDLE_PER_KEY {
        return true;
      }
      idle := idle[key := bucket + [Entry(raw, now)]];
      closed := false;
    }
  }

  /** The position of the first connection that is neither expired nor dead. */
  function FirstUsable(bucket: seq<Entry>, now: int, alive: Raw -> bool): (n: nat)
    ensures n <= |bucket|
    ensures forall i :: 0 <= i < n ==> now - bucket[i].since > 300 || !alive(bucket[i].raw)
    ensures n < |bucket| ==> now - bucket[n].since <= 300 && alive(bucket[n].raw)
  {
    if bucket == [] || (!Expired(now, bucket[0].since) && alive(bucket[0].raw)) then 0
    else 1 + FirstUsable(bucket[1..], now, alive)
  }

  function Raws(bucket: seq<Entry>): seq<Raw> {
    seq(|bucket|, i requires 0 <= i < |bucket| => bucket[i].raw)
  }

  lemma {:induction false} NoneTaken(bucket: seq<Entry>, now: int, alive: Raw -> bool)
    ensures Raws(bucket[..0]) == [] && 0 <= FirstUsable(bucket, now, alive)
  {
  }

  lemma {:induction false} FirstUsableWithin(bucket: seq<Entry>, now: int, alive: Raw -> bool)
    ensures FirstUsable(bucket, now, alive) <= |bucket|
  {
  }

  /** What the test of the next connection says about the position of the first usable one. */
  lemma {:induction false} OneTaken(bucket: seq<Entry>, now: int, alive: Raw -> bool, n: nat)
    requires n < |bucket| && n <= FirstUsable(bucket, now, alive)
    ensures var unusable := Expired(now, bucket[n].since) || !alive(bucket[n].raw);
            if unusable then n < FirstUsable(bucket, now, alive) else n == FirstUsable(bucket, now, alive)
    ensures Raws(bucket[..n + 1]) == Raws(bucket[..n]) + [bucket[n].raw]
  {
  }

  /** Behind an unexpired connection of an ordered bucket none has expired. */
  lemma RestUnexpired(bucket: seq<Entry>, now: int, n: nat, rest: seq<Entry>)
    requires n < |bucket| && BucketOk(bucket, now) && !Expired(now, bucket[n].since)
    requires rest == bucket[n + 1..]
    ensures forall i :: 0 <= i < |rest| ==> now - rest[i].since <= 300
  {
  }
}
