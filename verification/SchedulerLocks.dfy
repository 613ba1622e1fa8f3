/** Background jobs under advisory locks (backend/app/core/scheduler.py). */
module SchedulerLocks {
  // Every worker process runs its own scheduler. A job checks a connection out of the worker's pool, tries the advisory
  // lock of its key on it, and on success remembers the connection in the worker's dictionary under the key. When its
  // body ends, normally or by an error, it pops the connection from the dictionary, unlocks on it and closes it. The
  // steps of all jobs of all workers interleave freely; several jobs, also of one worker, may share a key.
  //
  // The engine is pooled (backend/app/db/session.py), so a connection is a session of the database that outlives its
  // use: closing it rolls back and puts it back into the pool. Advisory locks belong to the session, survive the
  // rollback and are counted: the session that holds a lock is granted it again. Only the end of the session, or one
  // unlock for each grant, gives a lock back.

  import opened Common

  type Job = int
  type Worker = int
  type Key = int
  type Session = nat

  /** How far the sync body has come: before its check, in the round with a number, or past both. */
  datatype Body = Unchecked | InRound(number: nat) | Done

  /** Where a job stands. `own` is the session it checked out, `found` the one it popped from the dictionary. */
  datatype Phase =
    | Asleep
    | Connected(own: Session)
    | Refused(own: Session)
    | Granted(own: Session)
    | Running(own: Session, body: Body)
    | Popped(own: Session, found: Session)
    | Unlocked(own: Session, found: Session)

  /** A sync round that was started: when, the interval it was checked against, and whether its time was stored. */
  datatype Round = Round(start: int, interval: nat, stored: bool)

  /** An advisory lock: who holds it and how many times over. */
  datatype Lock = Lock(session: Session, count: nat)

  /** `failures` is a record kept beside the state: each unlock that failed on a session that went on living. */
  datatype State = State(
    locks: map<Key, Lock>,               // the advisory locks granted by the database
    dict: map<(Worker, Key), Session>,   // the dictionary of each worker
    user: map<Session, Job>,             // the sessions checked out, and by whom
    idle: map<Session, Worker>,          // the sessions in the pool of each worker
    phase: map<Job, Phase>,
    nextSession: Session,
    failures: multiset<(Key, Session)>,
    clock: int, lastRun: Option<int>, rounds: seq<Round>)

  /** The fixed assignment of jobs to workers and keys. Jobs with the sync key are the sync job of their worker. */
  datatype Jobs = Jobs(workerOf: Job -> Worker, keyOf: Job -> Key, syncKey: Key)

  const INITIAL := State(map[], map[], map[], map[], map[], 0, multiset{}, 0, None, [])

  /** How an unlock ends: with the lock given back once, with an error on a living session, or with the session lost. */
  datatype Ending = Released | Failed | Lost

  /** `pooled` is the idle session that the pool hands out, if it does not open a new one; `kept` says whether it takes a
      returned session back or ends it, as it does beyond its size. `Discard` is the end of an idle session. */
  datatype Op =
    | Connect(j: Job, pooled: Option<Session>)
    | Try(j: Job)
    | Drop(j: Job, kept: bool)
    | Store(j: Job)
    | CheckDue(j: Job, interval: nat)
    | Complete(j: Job)
    | Pop(j: Job)
    | Unlock(j: Job, ending: Ending)
    | Close(j: Job, kept: bool)
    | Discard(c: Session)
    | Tick(passed: nat)

  function PhaseOf(s: State, j: Job): Phase {
    if j in s.phase then s.phase[j] else Asleep
  }

  /** The database still has the session. */
  predicate Alive(s: State, c: Session) {
    c in s.user || c in s.idle
  }

  /** The end of a session gives back every advisory lock that it holds. */
  function EndSession(s: State, c: Session): State {
    s.(user := s.user - {c}, idle := s.idle - {c}, locks := map k | k in s.locks && s.locks[k].session != c :: s.locks[k])
  }

  /** Job `j` closes its connection. */
  function Return(jobs: Jobs, s: State, j: Job, c: Session, kept: bool): State {
    (if c !in s.user then s
     else if kept then s.(user := s.user - {c}, idle := s.idle[c := jobs.workerOf(j)])
     else EndSession(s, c)).(phase := s.phase[j := Asleep])
  }

  /** `pg_try_advisory_lock` succeeds when no other session holds the lock. */
  predicate Grantable(s: State, key: Key, c: Session) {
    key in s.locks ==> s.locks[key].session == c
  }

  function Grant(s: State, key: Key, c: Session): map<Key, Lock> {
    s.locks[key := Lock(c, LockCount(s, key, c) + 1)]
  }

  /** `pg_advisory_unlock` of a session that holds the lock. */
  function Release(s: State, key: Key, c: Session): map<Key, Lock> {
    if LockCount(s, key, c) == 0 then s.locks
    else if LockCount(s, key, c) == 1 then s.locks - {key}
    else s.locks[key := Lock(c, LockCount(s, key, c) - 1)]
  }

  /** How many times the session holds the lock. */
  function LockCount(s: State, key: Key, c: Session): nat {
    if key in s.locks && s.locks[key].session == c then s.locks[key].count else 0
  }

  function Step(jobs: Jobs, s: State, op: Op): State {
    match op
    case Connect(j, None) =>
      if !PhaseOf(s, j).Asleep? then s
      else
        s.(user := s.user[s.nextSession := j], phase := s.phase[j := Connected(s.nextSession)],
           nextSession := s.nextSession + 1)
    case Connect(j, Some(c)) =>
      if !PhaseOf(s, j).Asleep? || c !in s.idle || s.idle[c] != jobs.workerOf(j) then s
      else s.(user := s.user[c := j], idle := s.idle - {c}, phase := s.phase[j := Connected(c)])
    case Try(j) =>
      var p := PhaseOf(s, j);
      if !p.Connected? then s
      else if !Grantable(s, jobs.keyOf(j), p.own) then s.(phase := s.phase[j := Refused(p.own)])
      else s.(locks := Grant(s, jobs.keyOf(j), p.own), phase := s.phase[j := Granted(p.own)])
    case Drop(j, kept) =>
      var p := PhaseOf(s, j);
      if !p.Refused? && !p.Connected? then s else Return(jobs, s, j, p.own, kept)
    case Store(j) =>
      var p := PhaseOf(s, j);
      if !p.Granted? then s
      else s.(dict := s.dict[(jobs.workerOf(j), jobs.keyOf(j)) := p.own], phase := s.phase[j := Running(p.own, Unchecked)])
    case CheckDue(j, interval) =>
      var p := PhaseOf(s, j);
      if !p.Running? || !p.body.Unchecked? || jobs.keyOf(j) != jobs.syncKey then s
      else if s.lastRun.Some? && s.clock - s.lastRun.value < interval then s.(phase := s.phase[j := p.(body := Done)])
      else s.(rounds := s.rounds + [Round(s.clock, interval, false)],
              phase := s.phase[j := p.(body := InRound(|s.rounds|))])
    case Complete(j) =>
      var p := PhaseOf(s, j);
      if !p.Running? || !p.body.InRound? || p.body.number >= |s.rounds| then s
      else
        var round := s.rounds[p.body.number];
        s.(lastRun := Some(round.start), rounds := s.rounds[p.body.number := round.(stored := true)],
           phase := s.phase[j := p.(body := Done)])
    case Pop(j) =>
      var p, entry := PhaseOf(s, j), (jobs.workerOf(j), jobs.keyOf(j));
      if !p.Running? then s
      else if entry !in s.dict then s.(phase := s.phase[j := Asleep])
      else s.(dict := s.dict - {entry}, phase := s.phase[j := Popped(p.own, s.dict[entry])])
    case Unlock(j, ending) =>
      var p, key := PhaseOf(s, j), jobs.keyOf(j);
      if !p.Popped? then s
      else
        var n := s.(phase := s.phase[j := Unlocked(p.own, p.found)]);
        (match ending
         case Released => n.(locks := Release(s, key, p.found))
         case Failed => n.(failures := s.failures + multiset{(key, p.found)})
         case Lost => EndSession(n, p.found))
    case Close(j, kept) =>
      var p := PhaseOf(s, j);
      if !p.Unlocked? then s else Return(jobs, s, j, p.found, kept)
    case Discard(c) => if c in s.idle then EndSession(s, c) else s
    case Tick(passed) => s.(clock := s.clock + passed)
  }

  function Run(jobs: Jobs, ops: seq<Op>): State {
    if ops == [] then INITIAL else Step(jobs, Run(jobs, ops[..|ops| - 1]), ops[|ops| - 1])
  }

  // ---------- the invariant ----------

  /** From the grant of the lock to its release. */
  predicate Holds(p: Phase) {
    p.Granted? || p.Running? || p.Popped?
  }

  /** No session is shared: it is in a pool, or checked out by one waking job. A session is lost only at an unlock. */
  ghost predicate SessionsOk(s: State) {
    && (forall j :: j in s.phase && !s.phase[j].Asleep? && !s.phase[j].Unlocked? ==> s.phase[j].own in s.user)
    && (forall j :: j in s.phase && !s.phase[j].Asleep? && s.phase[j].own in s.user ==> s.user[s.phase[j].own] == j)
    && (forall j :: j in s.phase && !s.phase[j].Asleep? ==> s.phase[j].own < s.nextSession && s.phase[j].own !in s.idle)
    && (forall c :: c in s.user ==>
          c < s.nextSession && !PhaseOf(s, s.user[c]).Asleep? && PhaseOf(s, s.user[c]).own == c)
    && (forall c :: c in s.idle ==> c < s.nextSession)
  }

  /** 1 while the job that uses the session is between grant and release of the lock. */
  function Holding(jobs: Jobs, s: State, k: Key, c: Session): nat {
    if c in s.user && Holds(PhaseOf(s, s.user[c])) && jobs.keyOf(s.user[c]) == k then 1 else 0
  }

  /** A living session holds a lock once for the job that uses it, and once more for each unlock that failed on it. */
  ghost predicate LocksOk(jobs: Jobs, s: State) {
    && (forall k :: k in s.locks ==> Alive(s, s.locks[k].session) && s.locks[k].count > 0)
    && (forall k, c :: Alive(s, c) ==> LockCount(s, k, c) == s.failures[(k, c)] + Holding(jobs, s, k, c))
    && (forall e :: e in s.failures ==> e.1 < s.nextSession)
  }

  /** A running job finds its own session in the dictionary, and what it popped is its own. */
  ghost predicate DictOk(jobs: Jobs, s: State) {
    && (forall j :: j in s.phase && s.phase[j].Running? ==>
          (jobs.workerOf(j), jobs.keyOf(j)) in s.dict
          && s.dict[(jobs.workerOf(j), jobs.keyOf(j))] == s.phase[j].own)
    && (forall j :: j in s.phase && (s.phase[j].Popped? || s.phase[j].Unlocked?) ==> s.phase[j].found == s.phase[j].own)
  }

  ghost predicate LockingOk(jobs: Jobs, s: State) {
    SessionsOk(s) && LocksOk(jobs, s) && DictOk(jobs, s)
  }

  /** A job between grant and release holds the lock of its key, on its own session. */
  lemma OwnLock(jobs: Jobs, s: State, j: Job)
    requires SessionsOk(s) && LocksOk(jobs, s) && Holds(PhaseOf(s, j))
    ensures jobs.keyOf(j) in s.locks && s.locks[jobs.keyOf(j)].session == PhaseOf(s, j).own
  {
    var k, c := jobs.keyOf(j), PhaseOf(s, j).own;
    assert Alive(s, c) && Holding(jobs, s, k, c) == 1;
    assert LockCount(s, k, c) > 0;
  }

  /** At most one job of a key is between grant and release: in particular at most one body runs. */
  lemma MutualExclusion(jobs: Jobs, s: State, i: Job, j: Job)
    requires SessionsOk(s) && LocksOk(jobs, s)
    requires Holds(PhaseOf(s, i)) && Holds(PhaseOf(s, j)) && jobs.keyOf(i) == jobs.keyOf(j)
    ensures i == j
  {
    OwnLock(jobs, s, i);
    OwnLock(jobs, s, j);
  }

  // ---------- every step keeps it ----------

  /** What a step leaves of every lock that it does not grant or release. */
  lemma SameLocks(jobs: Jobs, s: State, n: State)
    requires LocksOk(jobs, s)
    requires n.locks == s.locks && n.failures == s.failures && n.nextSession >= s.nextSession
    requires forall c: Session :: Alive(s, c) ==> Alive(n, c)
    requires forall c: Session :: Alive(n, c) ==> Alive(s, c) || c >= s.nextSession
    requires forall c :: c in s.user || c in s.idle ==> c < s.nextSession
    requires forall k, c :: Alive(n, c) ==> Holding(jobs, n, k, c) == Holding(jobs, s, k, c)
    ensures LocksOk(jobs, n)
  {
    forall k, c: Session | Alive(n, c)
      ensures LockCount(n, k, c) == n.failures[(k, c)] + Holding(jobs, n, k, c)
    {
      assert LockCount(n, k, c) == LockCount(s, k, c);
      if !Alive(s, c) {
        assert (k, c) !in s.failures;
        assert Holding(jobs, s, k, c) == 0;
      }
    }
  }

  /** A step that changes nothing but one job's phase, and of that neither its session nor whether it holds. */
  predicate SameStanding(p: Phase, q: Phase) {
    && !p.Asleep? && !q.Asleep? && p.own == q.own
    && Holds(p) == Holds(q) && (p.Unlocked? <==> q.Unlocked?)
  }

  lemma MovePhase(jobs: Jobs, s: State, j: Job, p: Phase)
    requires SessionsOk(s) && LocksOk(jobs, s) && SameStanding(PhaseOf(s, j), p)
    ensures SessionsOk(s.(phase := s.phase[j := p])) && LocksOk(jobs, s.(phase := s.phase[j := p]))
  {
    hide LockCount;
    SameLocks(jobs, s, s.(phase := s.phase[j := p]));
  }

  /** Phases that have nothing in the dictionary and nothing popped. */
  predicate Plain(p: Phase) {
    !p.Running? && !p.Popped? && !p.Unlocked?
  }

  lemma DictKept(jobs: Jobs, s: State, n: State, j: Job, p: Phase)
    requires DictOk(jobs, s) && n.dict == s.dict && n.phase == s.phase[j := p]
    requires Plain(p) || (p.Unlocked? && p.found == p.own)
    ensures DictOk(jobs, n)
  {
  }

  lemma NewSessions(s: State, j: Job)
    requires SessionsOk(s) && PhaseOf(s, j).Asleep?
    ensures SessionsOk(s.(user := s.user[s.nextSession := j], phase := s.phase[j := Connected(s.nextSession)],
                          nextSession := s.nextSession + 1))
  {
  }

  lemma NewSession(jobs: Jobs, s: State, j: Job)
    requires LockingOk(jobs, s) && PhaseOf(s, j).Asleep?
    ensures LockingOk(jobs, s.(user := s.user[s.nextSession := j], phase := s.phase[j := Connected(s.nextSession)],
                               nextSession := s.nextSession + 1))
  {
    var n := s.(user := s.user[s.nextSession := j], phase := s.phase[j := Connected(s.nextSession)],
                nextSession := s.nextSession + 1);
    NewSessions(s, j);
    DictKept(jobs, s, n, j, Connected(s.nextSession));
    hide LockCount, DictOk;
    SameLocks(jobs, s, n);
  }

  lemma PooledSessions(s: State, j: Job, c: Session)
    requires SessionsOk(s) && PhaseOf(s, j).Asleep? && c in s.idle
    ensures SessionsOk(s.(user := s.user[c := j], idle := s.idle - {c}, phase := s.phase[j := Connected(c)]))
  {
  }

  lemma PooledSession(jobs: Jobs, s: State, j: Job, c: Session)
    requires LockingOk(jobs, s) && PhaseOf(s, j).Asleep? && c in s.idle
    ensures LockingOk(jobs, s.(user := s.user[c := j], idle := s.idle - {c}, phase := s.phase[j := Connected(c)]))
  {
    var n := s.(user := s.user[c := j], idle := s.idle - {c}, phase := s.phase[j := Connected(c)]);
    PooledSessions(s, j, c);
    DictKept(jobs, s, n, j, Connected(c));
    hide LockCount, DictOk;
    SameLocks(jobs, s, n);
  }

  lemma TryRefused(jobs: Jobs, s: State, j: Job)
    requires LockingOk(jobs, s) && PhaseOf(s, j).Connected?
    ensures LockingOk(jobs, s.(phase := s.phase[j := Refused(PhaseOf(s, j).own)]))
  {
    MovePhase(jobs, s, j, Refused(PhaseOf(s, j).own));
  }

  lemma TryGranted(jobs: Jobs, s: State, j: Job)
    requires LockingOk(jobs, s) && PhaseOf(s, j).Connected? && Grantable(s, jobs.keyOf(j), PhaseOf(s, j).own)
    ensures LockingOk(jobs, s.(locks := Grant(s, jobs.keyOf(j), PhaseOf(s, j).own),
                               phase := s.phase[j := Granted(PhaseOf(s, j).own)]))
  {
    var key, own := jobs.keyOf(j), PhaseOf(s, j).own;
    var n := s.(locks := Grant(s, key, own), phase := s.phase[j := Granted(own)]);
    DictKept(jobs, s, n, j, Granted(own));
    assert SessionsOk(n) by { hide LocksOk, Grant, DictOk; }
    GrantedCounts(s, key, own);
    hide Holding, Grant, DictOk;
    forall k, c: Session | Alive(n, c)
      ensures LockCount(n, k, c) == n.failures[(k, c)] + Holding(jobs, n, k, c)
    {
      assert Alive(s, c);
      assert LockCount(n, k, c) == LockCount(s.(locks := n.locks), k, c);
      HoldingMoves(jobs, s, n, j, k, c);
    }
    GrantedAlive(s, key, own);
  }

  lemma GrantedCounts(s: State, key: Key, own: Session)
    requires Grantable(s, key, own)
    ensures forall k, c: Session :: LockCount(s.(locks := Grant(s, key, own)), k, c)
                                    == LockCount(s, k, c) + if k == key && c == own then 1 else 0
  {
  }

  lemma GrantedAlive(s: State, key: Key, own: Session)
    requires forall k :: k in s.locks ==> Alive(s, s.locks[k].session) && s.locks[k].count > 0
    requires Alive(s, own)
    ensures forall k :: k in Grant(s, key, own) ==> Alive(s, Grant(s, key, own)[k].session) && Grant(s, key, own)[k].count > 0
  {
  }

  /** A job of a checked-out session that begins or ceases to hold changes what that session holds of its key alone. */
  lemma HoldingMoves(jobs: Jobs, s: State, n: State, j: Job, k: Key, c: Session)
    requires SessionsOk(s) && !PhaseOf(s, j).Asleep? && PhaseOf(s, j).own in s.user
    requires n.user == s.user && j in n.phase && n.phase == s.phase[j := n.phase[j]]
    requires Holds(n.phase[j]) != Holds(PhaseOf(s, j))
    ensures Holding(jobs, n, k, c) - Holding(jobs, s, k, c)
            == (if k != jobs.keyOf(j) || c != PhaseOf(s, j).own then 0 else if Holds(n.phase[j]) then 1 else -1)
  {
    if c in s.user && s.user[c] == j {
      assert c == PhaseOf(s, j).own;
    }
  }

  /** Ending a session in use by no job that holds. */
  lemma EndLocks(jobs: Jobs, s: State, c: Session)
    requires LocksOk(jobs, s)
    ensures LocksOk(jobs, EndSession(s, c))
  {
    var n := EndSession(s, c);
    forall k, d: Session | Alive(n, d)
      ensures LockCount(n, k, d) == n.failures[(k, d)] + Holding(jobs, n, k, d)
    {
      assert Alive(s, d) && d != c;
      assert LockCount(n, k, d) == LockCount(s, k, d);
    }
  }

  /** Closing the connection of a job that has been refused, has failed to try its lock, or is past its unlock. */
  lemma ReturnOwn(jobs: Jobs, s: State, j: Job, kept: bool)
    requires LockingOk(jobs, s)
    requires var p := PhaseOf(s, j); p.Connected? || p.Refused? || p.Unlocked?
    ensures LockingOk(jobs, Return(jobs, s, j, PhaseOf(s, j).own, kept))
  {
    var own := PhaseOf(s, j).own;
    var n := Return(jobs, s, j, own, kept);
    ReturnSessions(jobs, s, j, kept);
    DictKept(jobs, s, n, j, Asleep);
    hide DictOk, LockCount;
    if own in s.user && !kept {
      hide SessionsOk;
      EndLocks(jobs, s, own);
      hide LocksOk;
      SleepLocks(jobs, EndSession(s, own), j);
    } else {
      KeptLocks(jobs, s, j);
    }
  }

  /** A session that goes back to the pool takes along the locks that it holds. */
  lemma KeptLocks(jobs: Jobs, s: State, j: Job)
    requires LockingOk(jobs, s)
    requires var p := PhaseOf(s, j); p.Connected? || p.Refused? || p.Unlocked?
    ensures LocksOk(jobs, Return(jobs, s, j, PhaseOf(s, j).own, true))
  {
    hide DictOk, LockCount;
    SameLocks(jobs, s, Return(jobs, s, j, PhaseOf(s, j).own, true));
  }

  lemma ReturnSessions(jobs: Jobs, s: State, j: Job, kept: bool)
    requires SessionsOk(s) && !PhaseOf(s, j).Asleep?
    ensures SessionsOk(Return(jobs, s, j, PhaseOf(s, j).own, kept))
  {
  }

  /** A job without a session goes to sleep. */
  lemma SleepLocks(jobs: Jobs, s: State, j: Job)
    requires LocksOk(jobs, s) && forall c :: c in s.user ==> s.user[c] != j
    ensures LocksOk(jobs, s.(phase := s.phase[j := Asleep]))
  {
    var n := s.(phase := s.phase[j := Asleep]);
    forall k, c: Session | Alive(n, c)
      ensures LockCount(n, k, c) == n.failures[(k, c)] + Holding(jobs, n, k, c)
    {
      assert Alive(s, c);
      assert LockCount(n, k, c) == LockCount(s, k, c) && Holding(jobs, n, k, c) == Holding(jobs, s, k, c);
    }
  }

  lemma StoreSession(jobs: Jobs, s: State, j: Job)
    requires LockingOk(jobs, s) && PhaseOf(s, j).Granted?
    ensures LockingOk(jobs, Step(jobs, s, Store(j)))
  {
    MovePhase(jobs, s, j, Running(PhaseOf(s, j).own, Unchecked));
    DictStore(jobs, s, j);
    var moved, n := s.(phase := s.phase[j := Running(PhaseOf(s, j).own, Unchecked)]), Step(jobs, s, Store(j));
    SameLocks(jobs, moved, n);
    assert SessionsOk(n);
  }

  lemma DictStore(jobs: Jobs, s: State, j: Job)
    requires LockingOk(jobs, s) && PhaseOf(s, j).Granted?
    ensures DictOk(jobs, Step(jobs, s, Store(j)))
  {
    forall i | i in s.phase && s.phase[i].Running? && jobs.keyOf(i) == jobs.keyOf(j)
      ensures i == j
    {
      MutualExclusion(jobs, s, i, j);
    }
    hide LocksOk, SessionsOk;
  }

  /** Popping removes the popping job's own entry and no other's. */
  lemma PopSession(jobs: Jobs, s: State, j: Job)
    requires LockingOk(jobs, s) && PhaseOf(s, j).Running?
    ensures LockingOk(jobs, Step(jobs, s, Pop(j)))
    ensures PhaseOf(Step(jobs, s, Pop(j)), j) == Popped(PhaseOf(s, j).own, PhaseOf(s, j).own)
  {
    var own, n := PhaseOf(s, j).own, Step(jobs, s, Pop(j));
    MovePhase(jobs, s, j, Popped(own, own));
    DictPop(jobs, s, j);
    SameLocks(jobs, s.(phase := s.phase[j := Popped(own, own)]), n);
    assert SessionsOk(n);
  }

  lemma DictPop(jobs: Jobs, s: State, j: Job)
    requires LockingOk(jobs, s) && PhaseOf(s, j).Running?
    ensures DictOk(jobs, Step(jobs, s, Pop(j)))
  {
    forall i | i in s.phase && s.phase[i].Running? && jobs.keyOf(i) == jobs.keyOf(j)
      ensures i == j
    {
      MutualExclusion(jobs, s, i, j);
    }
    hide LocksOk, SessionsOk;
  }

  lemma UnlockSessions(jobs: Jobs, s: State, j: Job, ending: Ending)
    requires LockingOk(jobs, s) && PhaseOf(s, j).Popped?
    ensures SessionsOk(Step(jobs, s, Unlock(j, ending))) && DictOk(jobs, Step(jobs, s, Unlock(j, ending)))
  {
    hide LocksOk, Release;
    var p, n := PhaseOf(s, j), Step(jobs, s, Unlock(j, ending));
    DictKept(jobs, s, n, j, Unlocked(p.own, p.found));
    hide DictOk;
    UnlockedSessions(s, j);
    if ending.Lost? {
      LostSessions(s.(phase := s.phase[j := Unlocked(p.own, p.found)]), j);
    } else {
      var moved := s.(phase := s.phase[j := Unlocked(p.own, p.found)]);
      assert SessionsOk(moved) && n.user == moved.user && n.idle == moved.idle && n.phase == moved.phase;
    }
  }

  lemma UnlockedSessions(s: State, j: Job)
    requires SessionsOk(s) && PhaseOf(s, j).Popped?
    ensures SessionsOk(s.(phase := s.phase[j := Unlocked(PhaseOf(s, j).own, PhaseOf(s, j).found)]))
  {
  }

  lemma LostSessions(s: State, j: Job)
    requires SessionsOk(s) && PhaseOf(s, j).Unlocked?
    ensures SessionsOk(EndSession(s, PhaseOf(s, j).own))
  {
  }

  /** An unlock that succeeds takes back the grant, one that fails is recorded in its place. */
  lemma UnlockAlive(jobs: Jobs, s: State, j: Job, ending: Ending)
    requires LockingOk(jobs, s) && PhaseOf(s, j).Popped? && !ending.Lost?
    ensures LocksOk(jobs, Step(jobs, s, Unlock(j, ending)))
  {
    var n, key, own := Step(jobs, s, Unlock(j, ending)), jobs.keyOf(j), PhaseOf(s, j).own;
    OwnLock(jobs, s, j);
    hide DictOk;
    forall k, c: Session | Alive(n, c)
      ensures LockCount(n, k, c) == n.failures[(k, c)] + Holding(jobs, n, k, c)
    {
      assert Alive(s, c);
      var one := if k == key && c == own then 1 else 0;
      HoldingMoves(jobs, s, n, j, k, c);
      if ending.Released? {
        assert LockCount(n, k, c) == LockCount(s, k, c) - one;
      } else {
        assert LockCount(n, k, c) == LockCount(s, k, c);
      }
    }
  }

  lemma UnlockLost(jobs: Jobs, s: State, j: Job)
    requires LockingOk(jobs, s) && PhaseOf(s, j).Popped?
    ensures LocksOk(jobs, Step(jobs, s, Unlock(j, Lost)))
  {
    var own := PhaseOf(s, j).own;
    EndLocks(jobs, s, own);
    var ended, n := EndSession(s, own), Step(jobs, s, Unlock(j, Lost));
    forall k, c: Session | Alive(n, c)
      ensures LockCount(n, k, c) == n.failures[(k, c)] + Holding(jobs, n, k, c)
    {
      assert Alive(ended, c);
      assert LockCount(n, k, c) == LockCount(ended, k, c) && Holding(jobs, n, k, c) == Holding(jobs, ended, k, c);
    }
  }

  lemma DiscardIdle(jobs: Jobs, s: State, c: Session)
    requires LockingOk(jobs, s) && c in s.idle
    ensures LockingOk(jobs, EndSession(s, c))
  {
    EndLocks(jobs, s, c);
    hide LocksOk;
  }

  /** The body's own steps do not touch the locking. */
  lemma BodyStep(jobs: Jobs, s: State, j: Job, body: Body, n: State)
    requires LockingOk(jobs, s) && PhaseOf(s, j).Running?
    requires n.phase == s.phase[j := PhaseOf(s, j).(body := body)]
    requires n.locks == s.locks && n.dict == s.dict && n.user == s.user && n.idle == s.idle
    requires n.nextSession == s.nextSession && n.failures == s.failures
    ensures LockingOk(jobs, n)
  {
    var moved := s.(phase := s.phase[j := PhaseOf(s, j).(body := body)]);
    MovePhase(jobs, s, j, PhaseOf(s, j).(body := body));
    assert DictOk(jobs, n) && SessionsOk(n);
    SameLocks(jobs, moved, n);
  }

  lemma OpeningOk(jobs: Jobs, s: State, op: Op)
    requires LockingOk(jobs, s) && (op.Connect? || op.Try? || op.Drop?)
    ensures LockingOk(jobs, Step(jobs, s, op))
  {
    hide LockingOk, EndSession, Return, Grant, Release;
    var n := Step(jobs, s, op);
    match op
    case Connect(j, pooled) =>
      if n != s {
        match pooled
        case None => NewSession(jobs, s, j);
        case Some(c) => PooledSession(jobs, s, j, c);
      }
    case Try(j) =>
      if PhaseOf(s, j).Connected? {
        if Grantable(s, jobs.keyOf(j), PhaseOf(s, j).own) {
          TryGranted(jobs, s, j);
        } else {
          TryRefused(jobs, s, j);
        }
      }
    case Drop(j, kept) => if PhaseOf(s, j).Refused? || PhaseOf(s, j).Connected? { ReturnOwn(jobs, s, j, kept); }
  }

  lemma DictionaryOk(jobs: Jobs, s: State, op: Op)
    requires LockingOk(jobs, s) && (op.Store? || op.Pop?)
    ensures LockingOk(jobs, Step(jobs, s, op))
  {
    hide LockingOk, EndSession, Return, Grant, Release;
    match op
    case Store(j) => if PhaseOf(s, j).Granted? { StoreSession(jobs, s, j); }
    case Pop(j) => if PhaseOf(s, j).Running? { PopSession(jobs, s, j); }
  }

  lemma CheckOk(jobs: Jobs, s: State, j: Job, interval: nat)
    requires LockingOk(jobs, s)
    ensures LockingOk(jobs, Step(jobs, s, CheckDue(j, interval)))
  {
    hide LockingOk;
    var p, n := PhaseOf(s, j), Step(jobs, s, CheckDue(j, interval));
    if p.Running? && p.body.Unchecked? && jobs.keyOf(j) == jobs.syncKey {
      if s.lastRun.Some? && s.clock - s.lastRun.value < interval {
        BodyStep(jobs, s, j, Done, n);
      } else {
        BodyStep(jobs, s, j, InRound(|s.rounds|), n);
      }
    }
  }

  lemma CompleteOk(jobs: Jobs, s: State, j: Job)
    requires LockingOk(jobs, s)
    ensures LockingOk(jobs, Step(jobs, s, Complete(j)))
  {
    hide LockingOk;
    var p := PhaseOf(s, j);
    if p.Running? && p.body.InRound? && p.body.number < |s.rounds| {
      BodyStep(jobs, s, j, Done, Step(jobs, s, Complete(j)));
    }
  }

  lemma ClosingOk(jobs: Jobs, s: State, op: Op)
    requires LockingOk(jobs, s) && (op.Unlock? || op.Close? || op.Discard? || op.Tick?)
    ensures LockingOk(jobs, Step(jobs, s, op))
  {
    hide LockingOk, EndSession, Return, Grant, Release;
    match op
    case Unlock(j, ending) => if PhaseOf(s, j).Popped? { UnlockOk(jobs, s, j, ending); }
    case Close(j, kept) =>
      if PhaseOf(s, j).Unlocked? {
        FoundIsOwn(jobs, s, j);
        ReturnOwn(jobs, s, j, kept);
      }
    case Discard(c) => if c in s.idle { DiscardIdle(jobs, s, c); }
    case Tick(passed) => TickLocking(jobs, s, passed);
  }

  lemma StepLocking(jobs: Jobs, s: State, op: Op)
    requires LockingOk(jobs, s)
    ensures LockingOk(jobs, Step(jobs, s, op))
  {
    hide LockingOk, Step;
    if op.Connect? || op.Try? || op.Drop? {
      OpeningOk(jobs, s, op);
    } else if op.Store? || op.Pop? {
      DictionaryOk(jobs, s, op);
    } else if op.CheckDue? {
      CheckOk(jobs, s, op.j, op.interval);
    } else if op.Complete? {
      CompleteOk(jobs, s, op.j);
    } else {
      ClosingOk(jobs, s, op);
    }
  }

  lemma UnlockOk(jobs: Jobs, s: State, j: Job, ending: Ending)
    requires LockingOk(jobs, s) && PhaseOf(s, j).Popped?
    ensures LockingOk(jobs, Step(jobs, s, Unlock(j, ending)))
  {
    hide SessionsOk, LocksOk, DictOk, Step;
    UnlockSessions(jobs, s, j, ending);
    if ending.Lost? {
      UnlockLost(jobs, s, j);
    } else {
      UnlockAlive(jobs, s, j, ending);
    }
  }

  lemma FoundIsOwn(jobs: Jobs, s: State, j: Job)
    requires LockingOk(jobs, s)
    ensures PhaseOf(s, j).Popped? || PhaseOf(s, j).Unlocked? ==> PhaseOf(s, j).found == PhaseOf(s, j).own
  {
  }

  lemma TickLocking(jobs: Jobs, s: State, passed: nat)
    requires LockingOk(jobs, s)
    ensures LockingOk(jobs, s.(clock := s.clock + passed))
  {
    var n := s.(clock := s.clock + passed);
    SameLocks(jobs, s, n);
    assert SessionsOk(n) && DictOk(jobs, n);
  }

  // ---------- every run ----------

  lemma StartLocking(jobs: Jobs)
    ensures LockingOk(jobs, INITIAL)
  {
  }

  lemma {:induction false} RunLocking(jobs: Jobs, ops: seq<Op>)
    ensures LockingOk(jobs, Run(jobs, ops))
  {
    hide Step, LockingOk;
    if ops == [] {
      StartLocking(jobs);
    } else {
      RunLocking(jobs, ops[..|ops| - 1]);
      StepLocking(jobs, Run(jobs, ops[..|ops| - 1]), ops[|ops| - 1]);
    }
  }

  /** In every run, at every moment: of all jobs of one key, in whatever worker, at most one body runs; a running body's
      key is locked by the session that the job itself checked out; and what a job pops and unlocks is that session. */
  lemma {:induction false} OneBodyPerKey(jobs: Jobs, ops: seq<Op>, i: Job, j: Job)
    ensures var s := Run(jobs, ops);
            && (PhaseOf(s, i).Running? && PhaseOf(s, j).Running? && jobs.keyOf(i) == jobs.keyOf(j) ==> i == j)
            && (PhaseOf(s, j).Running? ==>
                  jobs.keyOf(j) in s.locks && s.locks[jobs.keyOf(j)].session == PhaseOf(s, j).own
                  && PhaseOf(Step(jobs, s, Pop(j)), j) == Popped(PhaseOf(s, j).own, PhaseOf(s, j).own))
            && (PhaseOf(s, j).Popped? || PhaseOf(s, j).Unlocked? ==> PhaseOf(s, j).found == PhaseOf(s, j).own)
  {
    hide Step, Run;
    RunLocking(jobs, ops);
    var s := Run(jobs, ops);
    if PhaseOf(s, i).Running? && PhaseOf(s, j).Running? && jobs.keyOf(i) == jobs.keyOf(j) {
      MutualExclusion(jobs, s, i, j);
    }
    if PhaseOf(s, j).Running? {
      OwnLock(jobs, s, j);
      PopSession(jobs, s, j);
    }
    FoundIsOwn(jobs, s, j);
  }

  // ---------- locks that are left behind ----------

  /** When all jobs sleep, no connection is checked out, and a key is locked exactly when an unlock of it has failed on a
      session that still lives, idle in some pool: as many times over as unlocks have failed there. So nothing is leaked
      if and only if no unlock has failed on a session that still lives. */
  lemma {:induction false} NothingLeaked(jobs: Jobs, ops: seq<Op>)
    requires forall j :: PhaseOf(Run(jobs, ops), j).Asleep?
    ensures var s := Run(jobs, ops);
            && s.user == map[]
            && (forall k :: k in s.locks <==> exists c :: c in s.idle && (k, c) in s.failures)
            && (forall k :: k in s.locks ==> s.locks[k].count == s.failures[(k, s.locks[k].session)])
            && (s.locks == map[] <==> forall e :: e in s.failures ==> e.1 !in s.idle)
  {
    hide Step, Run;
    RunLocking(jobs, ops);
    var s := Run(jobs, ops);
    assert forall c :: c in s.user ==> PhaseOf(s, s.user[c]).Asleep?;
    forall k
      ensures k in s.locks ==> s.locks[k].session in s.idle && s.locks[k].count == s.failures[(k, s.locks[k].session)]
    {
      if k in s.locks {
        assert LockCount(s, k, s.locks[k].session) == s.locks[k].count;
        assert Holding(jobs, s, k, s.locks[k].session) == 0;
      }
    }
    forall k, c | c in s.idle && (k, c) in s.failures
      ensures k in s.locks
    {
      assert Alive(s, c) && LockCount(s, k, c) > 0;
    }
    if s.locks == map[] {
      forall e | e in s.failures
        ensures e.1 !in s.idle
      {
        assert e == (e.0, e.1);
      }
    }
  }

  lemma StepFailures(jobs: Jobs, s: State, op: Op)
    ensures s.failures <= Step(jobs, s, op).failures
  {
  }

  lemma {:induction false} FailuresStay(jobs: Jobs, ops: seq<Op>, i: nat)
    requires i <= |ops|
    ensures Run(jobs, ops[..i]).failures <= Run(jobs, ops).failures
    decreases |ops|
  {
    hide Step;
    if i == |ops| {
      assert ops[..i] == ops;
    } else {
      var front := ops[..|ops| - 1];
      assert front[..i] == ops[..i];
      FailuresStay(jobs, front, i);
      StepFailures(jobs, Run(jobs, front), ops[|ops| - 1]);
    }
  }

  /** After an unlock has failed on a session, every later moment finds the session dead or the key locked by it: a job that
      tries the lock is granted it exactly on that session, and every job that runs under the key runs on it. So all other
      workers are shut out for as long as the session lives. */
  lemma {:induction false} LockedOut(jobs: Jobs, ops: seq<Op>, i: nat, k: Key, c: Session, j: Job)
    requires i <= |ops| && (k, c) in Run(jobs, ops[..i]).failures && Alive(Run(jobs, ops), c) && jobs.keyOf(j) == k
    ensures var s := Run(jobs, ops);
            && k in s.locks && s.locks[k].session == c
            && (PhaseOf(s, j).Connected? ==> (PhaseOf(Step(jobs, s, Try(j)), j).Granted? <==> PhaseOf(s, j).own == c))
            && (Holds(PhaseOf(s, j)) ==> PhaseOf(s, j).own == c)
  {
    hide Run;
    RunLocking(jobs, ops);
    FailuresStay(jobs, ops, i);
    var s := Run(jobs, ops);
    assert LockCount(s, k, c) > 0;
    if Holds(PhaseOf(s, j)) {
      OwnLock(jobs, s, j);
    }
  }

  // ---------- sync rounds ----------

  /** The last stored round, as far as its start goes. */
  function LastStored(rounds: seq<Round>): (last: Option<int>)
    ensures last.None? <==> forall i :: 0 <= i < |rounds| ==> !rounds[i].stored
    ensures last.Some? ==> exists i :: 0 <= i < |rounds| && rounds[i].stored && rounds[i].start == last.value
  {
    if rounds == [] then None
    else if rounds[|rounds| - 1].stored then Some(rounds[|rounds| - 1].start)
    else LastStored(rounds[..|rounds| - 1])
  }

  /** Rounds start in order, each at least its interval after every stored round before it. */
  predicate Apart(rounds: seq<Round>) {
    forall i, k :: 0 <= i < k < |rounds| ==>
      && rounds[i].start <= rounds[k].start
      && (rounds[i].stored ==> rounds[k].start - rounds[i].start >= rounds[k].interval)
  }

  /** The stored last run is that of the last stored round, no round lies in the future, and a round in progress is the
      last one and not yet stored. */
  ghost predicate RoundsOk(jobs: Jobs, s: State) {
    && Apart(s.rounds) && s.lastRun == LastStored(s.rounds)
    && (forall i :: 0 <= i < |s.rounds| ==> s.rounds[i].start <= s.clock)
    && (forall j :: j in s.phase && s.phase[j].Running? && s.phase[j].body.InRound? ==>
          && jobs.keyOf(j) == jobs.syncKey
          && s.phase[j].body.number + 1 == |s.rounds| && !s.rounds[s.phase[j].body.number].stored)
  }

  /** A step that neither starts nor stores a round leaves no job in a round that was not in it. */
  predicate NoNewRound(s: State, n: State) {
    && n.rounds == s.rounds && n.lastRun == s.lastRun && n.clock >= s.clock
    && forall j :: j in n.phase && n.phase[j].Running? && n.phase[j].body.InRound? ==>
         j in s.phase && n.phase[j] == s.phase[j]
  }

  lemma Ended(s: State, c: Session)
    ensures var n := EndSession(s, c);
            n.phase == s.phase && n.rounds == s.rounds && n.lastRun == s.lastRun && n.clock == s.clock
  {
  }

  lemma Returned(jobs: Jobs, s: State, j: Job, c: Session, kept: bool)
    ensures var n := Return(jobs, s, j, c, kept);
            n.phase == s.phase[j := Asleep] && n.rounds == s.rounds && n.lastRun == s.lastRun && n.clock == s.clock
  {
  }

  lemma OpeningRounds(jobs: Jobs, s: State, op: Op)
    requires op.Connect? || op.Try? || op.Drop? || op.Store?
    ensures NoNewRound(s, Step(jobs, s, op))
  {
    hide Grant, Return, Grantable;
    match op
    case Drop(j, kept) =>
      if PhaseOf(s, j).Refused? || PhaseOf(s, j).Connected? {
        Returned(jobs, s, j, PhaseOf(s, j).own, kept);
      }
    case _ =>
  }

  lemma ClosingRounds(jobs: Jobs, s: State, op: Op)
    requires op.Pop? || op.Unlock? || op.Close? || op.Discard? || op.Tick?
    ensures NoNewRound(s, Step(jobs, s, op))
  {
    hide Release, EndSession, Return;
    match op
    case Close(j, kept) =>
      if PhaseOf(s, j).Unlocked? {
        Returned(jobs, s, j, PhaseOf(s, j).found, kept);
      }
    case Discard(c) => Ended(s, c);
    case Unlock(j, ending) =>
      if PhaseOf(s, j).Popped? {
        var p := PhaseOf(s, j);
        Ended(s.(phase := s.phase[j := Unlocked(p.own, p.found)]), p.found);
      }
    case _ =>
  }


  lemma StepRounds(jobs: Jobs, s: State, op: Op)
    requires LockingOk(jobs, s) && RoundsOk(jobs, s)
    ensures RoundsOk(jobs, Step(jobs, s, op))
  {
    hide LastStored, Step, LockingOk, Apart;
    if op.Complete? {
      CompleteRounds(jobs, s, op.j);
    } else if op.CheckDue? {
      StartRounds(jobs, s, op.j, op.interval);
    } else if op.Connect? || op.Try? || op.Drop? || op.Store? {
      OpeningRounds(jobs, s, op);
    } else {
      ClosingRounds(jobs, s, op);
    }
  }

  /** While a sync body runs, no other does. */
  lemma OnlySync(jobs: Jobs, s: State, j: Job)
    requires LockingOk(jobs, s) && RoundsOk(jobs, s)
    requires PhaseOf(s, j).Running? && jobs.keyOf(j) == jobs.syncKey
    ensures forall i :: i in s.phase && s.phase[i].Running? && s.phase[i].body.InRound? ==> i == j
  {
    forall i | i in s.phase && s.phase[i].Running? && s.phase[i].body.InRound?
      ensures i == j
    {
      MutualExclusion(jobs, s, i, j);
    }
  }

  /** The last stored round is the latest stored one. */
  lemma {:induction false} LastStoredLatest(rounds: seq<Round>, i: nat)
    requires Apart(rounds) && i < |rounds| && rounds[i].stored
    ensures LastStored(rounds).Some? && rounds[i].start <= LastStored(rounds).value
    decreases |rounds|
  {
    if !rounds[|rounds| - 1].stored {
      LastStoredLatest(rounds[..|rounds| - 1], i);
    }
  }

  /** The last stored round is long enough ago exactly when all stored rounds are. */
  lemma DueByLast(rounds: seq<Round>, clock: int, interval: nat)
    requires Apart(rounds)
    ensures (LastStored(rounds).Some? && clock - LastStored(rounds).value < interval)
            <==> exists i :: 0 <= i < |rounds| && rounds[i].stored && clock - rounds[i].start < interval
  {
    forall i | 0 <= i < |rounds| && rounds[i].stored
      ensures LastStored(rounds).Some? && rounds[i].start <= LastStored(rounds).value
    {
      LastStoredLatest(rounds, i);
    }
  }

  lemma RoundAdded(rounds: seq<Round>, clock: int, interval: nat)
    requires Apart(rounds)
    requires forall i :: 0 <= i < |rounds| ==>
               rounds[i].start <= clock && (rounds[i].stored ==> clock - rounds[i].start >= interval)
    ensures var n := rounds + [Round(clock, interval, false)];
            Apart(n) && LastStored(n) == LastStored(rounds)
  {
    var n := rounds + [Round(clock, interval, false)];
    assert n[..|n| - 1] == rounds;
  }

  lemma StartRounds(jobs: Jobs, s: State, j: Job, interval: nat)
    requires LockingOk(jobs, s) && RoundsOk(jobs, s)
    ensures RoundsOk(jobs, Step(jobs, s, CheckDue(j, interval)))
  {
    hide LastStored, Apart;
    var p := PhaseOf(s, j);
    if p.Running? && p.body.Unchecked? && jobs.keyOf(j) == jobs.syncKey {
      OnlySync(jobs, s, j);
      hide LockingOk;
      DueByLast(s.rounds, s.clock, interval);
      if !(s.lastRun.Some? && s.clock - s.lastRun.value < interval) {
        RoundAdded(s.rounds, s.clock, interval);
        RoundStarted(jobs, s, j, interval);
      }
    }
  }

  lemma RoundStarted(jobs: Jobs, s: State, j: Job, interval: nat)
    requires RoundsOk(jobs, s) && PhaseOf(s, j).Running? && jobs.keyOf(j) == jobs.syncKey
    requires forall i :: i in s.phase && s.phase[i].Running? && s.phase[i].body.InRound? ==> i == j
    requires var n := s.rounds + [Round(s.clock, interval, false)];
             Apart(n) && LastStored(n) == LastStored(s.rounds)
    ensures RoundsOk(jobs, s.(rounds := s.rounds + [Round(s.clock, interval, false)],
                              phase := s.phase[j := PhaseOf(s, j).(body := InRound(|s.rounds|))]))
  {
    hide LastStored, Apart;
  }

  /** While a round finishes, no other is in progress, so none was checked against an older last run. */
  lemma CompleteRounds(jobs: Jobs, s: State, j: Job)
    requires LockingOk(jobs, s) && RoundsOk(jobs, s)
    ensures RoundsOk(jobs, Step(jobs, s, Complete(j)))
  {
    var p := PhaseOf(s, j);
    if p.Running? && p.body.InRound? {
      OnlySync(jobs, s, j);
      hide LockingOk;
      var n := Step(jobs, s, Complete(j));
      assert n.rounds[|n.rounds| - 1].stored;
    }
  }

  lemma {:induction false} RunRounds(jobs: Jobs, ops: seq<Op>)
    ensures RoundsOk(jobs, Run(jobs, ops))
  {
    hide Step, LockingOk;
    if ops != [] {
      RunLocking(jobs, ops[..|ops| - 1]);
      RunRounds(jobs, ops[..|ops| - 1]);
      hide RoundsOk;
      StepRounds(jobs, Run(jobs, ops[..|ops| - 1]), ops[|ops| - 1]);
    }
  }

  /** After every run, over all workers: a sync job that holds the lock and has not checked yet starts a round exactly
      when every stored round started at least the interval ago. Rounds that were not stored do not count. */
  lemma {:induction false} StartsExactly(jobs: Jobs, ops: seq<Op>, j: Job, interval: nat)
    requires var p := PhaseOf(Run(jobs, ops), j);
             p.Running? && p.body.Unchecked? && jobs.keyOf(j) == jobs.syncKey
    ensures var s := Run(jobs, ops);
            var n := Step(jobs, s, CheckDue(j, interval));
            var due := forall i :: 0 <= i < |s.rounds| && s.rounds[i].stored ==> s.clock - s.rounds[i].start >= interval;
            && n.rounds == (if due then s.rounds + [Round(s.clock, interval, false)] else s.rounds)
            && (PhaseOf(n, j).body.InRound? <==> due)
  {
    hide Run, LastStored;
    RunRounds(jobs, ops);
    DueByLast(Run(jobs, ops).rounds, Run(jobs, ops).clock, interval);
  }

  /** In every run, over all workers: a started sync round, finished or not, starts no earlier than any round before it,
      and at least its interval after those of them that were stored. */
  lemma {:induction false} RoundsApart(jobs: Jobs, ops: seq<Op>, i: nat, k: nat)
    requires i < k < |Run(jobs, ops).rounds|
    ensures var rounds := Run(jobs, ops).rounds;
            && rounds[i].start <= rounds[k].start
            && (rounds[i].stored ==> rounds[k].start - rounds[i].start >= rounds[k].interval)
  {
    hide Run, LastStored;
    RunRounds(jobs, ops);
  }

  // ---------- what single steps decide ----------

  /** A lock is granted exactly when no other session holds it, once more than before; a refusal changes no lock. */
  lemma TryExactly(jobs: Jobs, s: State, j: Job)
    requires PhaseOf(s, j).Connected?
    ensures var c, k, n := PhaseOf(s, j).own, jobs.keyOf(j), Step(jobs, s, Try(j));
            && (if k in s.locks && s.locks[k].session != c then PhaseOf(n, j) == Refused(c) && n.locks == s.locks
                else
                  && PhaseOf(n, j) == Granted(c)
                  && n.locks == s.locks[k := Lock(c, if k in s.locks then s.locks[k].count + 1 else 1)])
            && n.user == s.user && n.idle == s.idle && n.dict == s.dict
            && forall i :: i != j ==> PhaseOf(n, i) == PhaseOf(s, i)
  {
  }

  /** The session is with this worker: in its pool or in use by one of its jobs, as long as it lives. */
  predicate AtHome(jobs: Jobs, s: State, c: Session, w: Worker) {
    && c < s.nextSession
    && (c in s.user ==> jobs.workerOf(s.user[c]) == w)
    && (c in s.idle ==> s.idle[c] == w)
  }

  lemma EndedHome(jobs: Jobs, s: State, ended: Session, c: Session, w: Worker)
    requires AtHome(jobs, s, c, w)
    ensures AtHome(jobs, EndSession(s, ended), c, w)
  {
  }

  lemma ReturnedHome(jobs: Jobs, s: State, j: Job, own: Session, kept: bool, c: Session, w: Worker)
    requires AtHome(jobs, s, c, w) && (own in s.user ==> s.user[own] == j)
    ensures AtHome(jobs, Return(jobs, s, j, own, kept), c, w)
  {
    EndedHome(jobs, s, own, c, w);
  }

  lemma UnlockHome(jobs: Jobs, s: State, j: Job, ending: Ending, c: Session, w: Worker)
    requires AtHome(jobs, s, c, w)
    ensures AtHome(jobs, Step(jobs, s, Unlock(j, ending)), c, w)
  {
    hide Release, EndSession;
    var p := PhaseOf(s, j);
    if p.Popped? {
      EndedHome(jobs, s.(phase := s.phase[j := Unlocked(p.own, p.found)]), p.found, c, w);
    }
  }

  /** Whose session a job is about to close. */
  lemma UserOf(s: State, j: Job)
    requires SessionsOk(s) && !PhaseOf(s, j).Asleep?
    ensures PhaseOf(s, j).own in s.user ==> s.user[PhaseOf(s, j).own] == j
  {
  }

  lemma {:induction false} HomeStep(jobs: Jobs, s: State, op: Op, c: Session, w: Worker)
    requires LockingOk(jobs, s) && AtHome(jobs, s, c, w)
    ensures AtHome(jobs, Step(jobs, s, op), c, w)
  {
    match op
    case Unlock(j, ending) => UnlockHome(jobs, s, j, ending, c, w);
    case Close(j, kept) =>
      hide LockingOk, EndSession, Return;
      CloseHome(jobs, s, j, kept, c, w);
    case Drop(j, kept) =>
      hide LocksOk, DictOk, EndSession, Return, AtHome;
      if PhaseOf(s, j).Refused? || PhaseOf(s, j).Connected? {
        UserOf(s, j);
        ReturnedHome(jobs, s, j, PhaseOf(s, j).own, kept, c, w);
      }
    case Discard(d) =>
      hide LockingOk, EndSession, AtHome;
      EndedHome(jobs, s, d, c, w);
    case _ =>
      hide LockingOk, Grant;
  }

  lemma CloseHome(jobs: Jobs, s: State, j: Job, kept: bool, c: Session, w: Worker)
    requires LockingOk(jobs, s) && AtHome(jobs, s, c, w)
    ensures AtHome(jobs, Step(jobs, s, Close(j, kept)), c, w)
  {
    hide LocksOk, EndSession, Return, AtHome;
    if PhaseOf(s, j).Unlocked? {
      FoundIsOwn(jobs, s, j);
      UserOf(s, j);
      hide DictOk, SessionsOk;
      ReturnedHome(jobs, s, j, PhaseOf(s, j).found, kept, c, w);
    }
  }

  /** Sessions are not passed between worker processes: whoever uses a session at any later moment, or pools it, is the worker
      that used or pooled it before. */
  lemma {:induction false} SessionsAtHome(jobs: Jobs, ops: seq<Op>, i: nat, c: Session, w: Worker)
    requires i <= |ops| && AtHome(jobs, Run(jobs, ops[..i]), c, w)
    ensures AtHome(jobs, Run(jobs, ops), c, w)
    decreases |ops|
  {
    hide Step, AtHome;
    if i == |ops| {
      assert ops[..i] == ops;
    } else {
      var front := ops[..|ops| - 1];
      assert front[..i] == ops[..i];
      SessionsAtHome(jobs, front, i, c, w);
      RunLocking(jobs, front);
      hide LockingOk;
      HomeStep(jobs, Run(jobs, front), ops[|ops| - 1], c, w);
    }
  }

  // ---------- two workers one after the other ----------

  const TWO_WORKERS := Jobs(j => j, j => 7, 7)

  lemma Then(ops: seq<Op>, op: Op) returns (longer: seq<Op>)
    ensures longer == ops + [op] && Run(TWO_WORKERS, longer) == Step(TWO_WORKERS, Run(TWO_WORKERS, ops), op)
  {
    longer := ops + [op];
    assert longer[..|longer| - 1] == ops;
  }

  /** From the connection of a job, a new one, to the grant of its lock. */
  lemma Begin(ops: seq<Op>, j: Job) returns (longer: seq<Op>)
    requires var s := Run(TWO_WORKERS, ops); PhaseOf(s, j).Asleep? && s.locks == map[]
    ensures var s, n := Run(TWO_WORKERS, ops), Run(TWO_WORKERS, longer);
            && PhaseOf(n, j) == Running(s.nextSession, Unchecked)
            && (forall i :: i != j ==> PhaseOf(n, i) == PhaseOf(s, i))
            && n.locks == map[7 := Lock(s.nextSession, 1)] && (j, 7) in n.dict && n.dict[(j, 7)] == s.nextSession
            && n.user == s.user[s.nextSession := j] && n.idle == s.idle && n.failures == s.failures
            && n.nextSession == s.nextSession + 1
            && n.rounds == s.rounds && n.lastRun == s.lastRun && n.clock == s.clock
  {
    hide Run;
    longer := Then(ops, Connect(j, None));
    longer := Then(longer, Try(j));
    longer := Then(longer, Store(j));
  }

  /** From the connection of a job to its due check, with nothing in between. */
  lemma StartRound(ops: seq<Op>, j: Job, interval: nat) returns (longer: seq<Op>)
    requires var s := Run(TWO_WORKERS, ops);
             && PhaseOf(s, j).Asleep? && s.locks == map[]
             && (s.lastRun.Some? ==> s.clock - s.lastRun.value >= interval)
    ensures var s, n := Run(TWO_WORKERS, ops), Run(TWO_WORKERS, longer);
            && PhaseOf(n, j) == Running(s.nextSession, InRound(|s.rounds|))
            && (forall i :: i != j ==> PhaseOf(n, i) == PhaseOf(s, i))
            && n.locks == map[7 := Lock(s.nextSession, 1)] && (j, 7) in n.dict && n.dict[(j, 7)] == s.nextSession
            && n.rounds == s.rounds + [Round(s.clock, interval, false)] && n.lastRun == s.lastRun && n.clock == s.clock
  {
    hide Run;
    longer := Begin(ops, j);
    longer := Then(longer, CheckDue(j, interval));
  }

  /** The way out of a job after its body, with nothing in between; its session goes back to the pool. */
  lemma EndJob(ops: seq<Op>, j: Job, own: Session, ending: Ending) returns (longer: seq<Op>)
    requires var s := Run(TWO_WORKERS, ops);
             && PhaseOf(s, j).Running? && s.locks == map[7 := Lock(own, 1)] && !ending.Lost?
             && (j, 7) in s.dict && s.dict[(j, 7)] == own
    ensures var s, n := Run(TWO_WORKERS, ops), Run(TWO_WORKERS, longer);
            && PhaseOf(n, j).Asleep? && (forall i :: i != j ==> PhaseOf(n, i) == PhaseOf(s, i))
            && n.locks == (if ending.Released? then map[] else s.locks)
            && n.failures == (if ending.Released? then s.failures else s.failures + multiset{(7, own)})
            && (own in s.user ==> own in n.idle && n.idle[own] == j)
            && n.nextSession == s.nextSession
            && n.rounds == s.rounds && n.lastRun == s.lastRun && n.clock == s.clock
  {
    hide Run;
    longer := Then(ops, Pop(j));
    longer := Then(longer, Unlock(j, ending));
    longer := Then(longer, Close(j, true));
  }

  /** The first round ends, and what it leaves is its own stored time or nothing. */
  lemma {:induction false} FirstRound(stored: bool) returns (ops: seq<Op>)
    ensures var s := Run(TWO_WORKERS, ops);
            && PhaseOf(s, 2).Asleep? && s.locks == map[] && s.clock == 0
            && s.rounds == [Round(0, 0, stored)] && s.lastRun == (if stored then Some(0) else None)
  {
    ops := [];
    assert Run(TWO_WORKERS, ops) == INITIAL;
    hide Run, Step;
    ops := StartRound(ops, 1, 0);
    assert PhaseOf(Run(TWO_WORKERS, ops), 2).Asleep?;
    if stored {
      ops := StoreRound(ops, 1, 0);
    }
    ops := EndJob(ops, 1, 0, Released);
    assert PhaseOf(Run(TWO_WORKERS, ops), 2).Asleep?;
  }

  lemma StoreRound(ops: seq<Op>, j: Job, own: Session) returns (longer: seq<Op>)
    requires var s := Run(TWO_WORKERS, ops);
             |s.rounds| == 1 && PhaseOf(s, j) == Running(own, InRound(0))
    ensures var s, n := Run(TWO_WORKERS, ops), Run(TWO_WORKERS, longer);
            && PhaseOf(n, j).Running? && n.locks == s.locks && n.dict == s.dict && n.clock == s.clock
            && (forall i :: i != j ==> PhaseOf(n, i) == PhaseOf(s, i))
            && n.rounds == [s.rounds[0].(stored := true)] && n.lastRun == Some(s.rounds[0].start)
  {
    hide Run;
    longer := Then(ops, Complete(j));
  }

  lemma {:induction false} GapPossible(stored: bool, gap: nat, interval: nat) returns (ops: seq<Op>)
    requires stored ==> gap >= interval
    ensures Run(TWO_WORKERS, ops).rounds == [Round(0, 0, stored), Round(gap, interval, false)]
  {
    hide Run;
    ops := FirstRound(stored);
    ops := Then(ops, Tick(gap));
    ops := StartRound(ops, 2, interval);
  }

  /** The gap after a round is free exactly when that round was not stored. A round that ends by an error before its time
      is written leaves no trace, so another worker may start the next one at the same instant, whatever the interval. */
  lemma {:induction false} GapExactly(stored: bool, gap: nat, interval: nat)
    ensures (exists ops :: Run(TWO_WORKERS, ops).rounds == [Round(0, 0, stored), Round(gap, interval, false)])
            <==> (stored ==> gap >= interval)
  {
    hide Run;
    if stored ==> gap >= interval {
      var ops := GapPossible(stored, gap, interval);
    }
    forall ops | Run(TWO_WORKERS, ops).rounds == [Round(0, 0, stored), Round(gap, interval, false)]
      ensures stored ==> gap >= interval
    {
      RoundsApart(TWO_WORKERS, ops, 0, 1);
    }
  }

  // ---------- one failed unlock ----------

  /** A failed unlock leaves the key locked on an idle session when all jobs sleep. A worker that gets another session is
      refused; the same worker, handed that session again, is granted the lock a second time. */
  lemma {:induction false} UnlockFails() returns (ops: seq<Op>)
    ensures var s := Run(TWO_WORKERS, ops);
            && (forall j :: PhaseOf(s, j).Asleep?)
            && s.locks == map[7 := Lock(0, 1)] && s.failures == multiset{(7, 0)} && 0 in s.idle && s.idle[0] == 1
            && PhaseOf(Run(TWO_WORKERS, ops + [Connect(2, None)] + [Try(2)]), 2) == Refused(1)
            && PhaseOf(Run(TWO_WORKERS, ops + [Connect(1, Some(0))] + [Try(1)]), 1) == Granted(0)
  {
    ops := [];
    assert Run(TWO_WORKERS, ops) == INITIAL;
    hide Run, Step;
    ops := Begin(ops, 1);
    ops := EndJob(ops, 1, 0, Failed);
    Refusal(ops);
    SecondGrant(ops);
  }

  lemma {:induction false} Refusal(ops: seq<Op>)
    requires var s := Run(TWO_WORKERS, ops);
             PhaseOf(s, 2).Asleep? && s.locks == map[7 := Lock(0, 1)] && s.nextSession == 1
    ensures PhaseOf(Run(TWO_WORKERS, ops + [Connect(2, None)] + [Try(2)]), 2) == Refused(1)
  {
    hide Run;
    var longer := Then(ops, Connect(2, None));
    longer := Then(longer, Try(2));
  }

  lemma {:induction false} SecondGrant(ops: seq<Op>)
    requires var s := Run(TWO_WORKERS, ops);
             PhaseOf(s, 1).Asleep? && s.locks == map[7 := Lock(0, 1)] && 0 in s.idle && s.idle[0] == 1
    ensures PhaseOf(Run(TWO_WORKERS, ops + [Connect(1, Some(0))] + [Try(1)]), 1) == Granted(0)
  {
    hide Run;
    var longer := Then(ops, Connect(1, Some(0)));
    longer := Then(longer, Try(1));
  }
}
