/** Whom a pooled connection belongs to (backend/app/core/kara_pool.py). */
module KaraKeys {
  // A connection is made for the key that a thread asked for. In every run, overlapping closes or not, it stays with that
  // key: in every wrapper, in every bucket and in the hands of every thread. So a caller gets a connection made for the
  // key that it asked for. What a connection was made for is read off the operations.

  import opened Common
  import opened KaraPool

  /** The operation is a request for a connection by a thread that is not at one already. */
  predicate Begins(before: seq<Op>, op: Op, t: Thread) {
    op.Ask? && op.t == t && TaskOf(Run(before), t).Free?
  }

  /** The key of the thread's last request. */
  function AskedKey(ops: seq<Op>, t: Thread): Key {
    if ops == [] then ""
    else
      var front, last := ops[..|ops| - 1], ops[|ops| - 1];
      if Begins(front, last, t) then last.key else AskedKey(front, t)
  }

  /** The operation makes a connection, the one with this number. */
  predicate Makes(before: seq<Op>, op: Op, r: Raw) {
    op.Create? && Run(before).created == r && Run(before + [op]).created == r + 1
  }

  /** The key for which a connection was made: the one that its maker had asked for. */
  function MadeFor(ops: seq<Op>, r: Raw): Option<Key> {
    if ops == [] then None
    else
      var front, last := ops[..|ops| - 1], ops[|ops| - 1];
      if Makes(front, last, r) then Some(AskedKey(front, last.t)) else MadeFor(front, r)
  }

  // ---------- the state and the operations agree ----------

  ghost predicate TasksKeyed(ops: seq<Op>) {
    forall t :: TaskKeyed(ops, t, TaskOf(Run(ops), t))
  }

  /** A thread that looks for a connection does so for what it asked for, and what it has in hand was made for the key that
      it has noted. */
  predicate TaskKeyed(ops: seq<Op>, t: Thread, p: Task) {
    && (p.Looking? || p.Testing? || p.Creating? ==> p.key == AskedKey(ops, t))
    && (p.Testing? || p.RollingBack? || p.PuttingBack? ==> MadeFor(ops, p.raw) == Some(p.key))
  }

  ghost predicate IdleKeyed(ops: seq<Op>) {
    var s := Run(ops);
    forall k, i :: k in s.idle && 0 <= i < |s.idle[k]| ==> MadeFor(ops, s.idle[k][i].raw) == Some(k)
  }

  ghost predicate WrappersKeyed(ops: seq<Op>) {
    var s := Run(ops);
    forall w :: 0 <= w < |s.wrappers| ==> MadeFor(ops, s.wrappers[w].raw) == Some(s.wrappers[w].key)
  }

  ghost predicate CreatedKeyed(ops: seq<Op>) {
    forall r: Raw :: MadeFor(ops, r).Some? ==> r < Run(ops).created
  }

  ghost predicate Keyed(ops: seq<Op>) {
    TasksKeyed(ops) && IdleKeyed(ops) && WrappersKeyed(ops) && CreatedKeyed(ops)
  }

  // ---------- one more operation ----------

  lemma {:induction false} MadeSnoc(ops: seq<Op>, op: Op, r: Raw)
    ensures MadeFor(ops + [op], r) == (if Makes(ops, op, r) then Some(AskedKey(ops, op.t)) else MadeFor(ops, r))
  {
    assert (ops + [op])[..|ops|] == ops;
  }

  lemma {:induction false} AskedSnoc(ops: seq<Op>, op: Op, t: Thread)
    ensures AskedKey(ops + [op], t) == (if Begins(ops, op, t) then op.key else AskedKey(ops, t))
  {
    assert (ops + [op])[..|ops|] == ops;
  }

  lemma {:induction false} MakesExactly(ops: seq<Op>, op: Op, r: Raw)
    ensures Makes(ops, op, r) <==> op.Create? && TaskOf(Run(ops), op.t).Creating? && Run(ops).created == r
    ensures Run(ops + [op]).created == Run(ops).created + if Makes(ops, op, Run(ops).created) then 1 else 0
  {
    hide Run;
    RunSnoc(ops, op);
  }

  /** What a connection was made for never changes. */
  lemma {:induction false} MadeStays(ops: seq<Op>, op: Op)
    requires CreatedKeyed(ops)
    ensures CreatedKeyed(ops + [op])
    ensures forall r: Raw :: MadeFor(ops, r).Some? ==> MadeFor(ops + [op], r) == MadeFor(ops, r)
  {
    hide Run, Makes, MadeFor;
    forall r: Raw
      ensures MadeFor(ops + [op], r).Some? ==> r < Run(ops + [op]).created
      ensures MadeFor(ops, r).Some? ==> MadeFor(ops + [op], r) == MadeFor(ops, r)
    {
      MadeSnoc(ops, op, r);
      MakesExactly(ops, op, r);
      MakesExactly(ops, op, Run(ops).created);
    }
  }

  lemma {:induction false} TasksStep(ops: seq<Op>, op: Op)
    requires Keyed(ops)
    ensures TasksKeyed(ops + [op])
  {
    var s, next := Run(ops), ops + [op];
    MadeStays(ops, op);
    RunSnoc(ops, op);
    hide Run, MadeFor, AskedKey, Step, Begins;
    forall t
      ensures TaskKeyed(next, t, TaskOf(Run(next), t))
    {
      AskedSnoc(ops, op, t);
      assert TaskKeyed(ops, t, TaskOf(s, t));
      TaskStep(s, op, t);
      BeginsFree(ops, op, t);
    }
  }

  lemma BeginsFree(ops: seq<Op>, op: Op, t: Thread)
    ensures Begins(ops, op, t) <==> TaskOf(Run(ops), t).Free? && op.Ask? && op.t == t
  {
  }

  /** The next task of a thread keeps the key of the one before, whose connection it keeps or gives up; it gets one only from
      a bucket of that key or from a wrapper. */
  lemma TaskStep(s: State, op: Op, t: Thread)
    ensures var p, q := TaskOf(s, t), TaskOf(Step(s, op), t);
            || q == p || q.Free? || q.Closing?
            || (p.Free? && op.Ask? && op.t == t && q == Looking(op.key, s.clock))
            || (p.Looking? && q == Creating(p.key))
            || (p.Looking? && q.Testing? && q.key == p.key && exists i :: 0 <= i < |Bucket(s, p.key)| && Bucket(s, p.key)[i].raw == q.raw)
            || (p.Testing? && q == Looking(p.key, p.now))
            || (p.Closing? && q.RollingBack? && p.wrapper < |s.wrappers|
                && q.key == s.wrappers[p.wrapper].key && q.raw == s.wrappers[p.wrapper].raw)
            || (p.RollingBack? && q == PuttingBack(p.key, p.raw))
  {
    hide IdleRaws, Expired;
  }

  lemma {:induction false} IdleStep(ops: seq<Op>, op: Op)
    requires Keyed(ops)
    ensures IdleKeyed(ops + [op])
  {
    var s, next := Run(ops), ops + [op];
    MadeStays(ops, op);
    RunSnoc(ops, op);
    var n := Run(next);
    hide Run, MadeFor, AskedKey, IdleRaws, Expired;
    forall k, i | k in n.idle && 0 <= i < |n.idle[k]|
      ensures MadeFor(next, n.idle[k][i].raw) == Some(k)
    {
      if op.Take? {
        assert n.idle[k][i] == Bucket(s, k)[i] || n.idle[k][i] == Bucket(s, k)[i + 1];
      } else if op.PutBack? {
        assert TaskKeyed(ops, op.t, TaskOf(s, op.t));
      }
    }
  }

  lemma {:induction false} WrappersStep(ops: seq<Op>, op: Op)
    requires Keyed(ops)
    ensures WrappersKeyed(ops + [op])
  {
    var s, next := Run(ops), ops + [op];
    MadeStays(ops, op);
    RunSnoc(ops, op);
    var n := Run(next);
    MadeSnoc(ops, op, s.created);
    MakesExactly(ops, op, s.created);
    hide Run, MadeFor, AskedKey, IdleRaws, Expired, Makes;
    forall w | 0 <= w < |n.wrappers|
      ensures MadeFor(next, n.wrappers[w].raw) == Some(n.wrappers[w].key)
    {
      if w < |s.wrappers| {
        assert n.wrappers[w].raw == s.wrappers[w].raw && n.wrappers[w].key == s.wrappers[w].key;
      } else {
        assert TaskKeyed(ops, op.t, TaskOf(s, op.t));
      }
    }
  }

  /** In every run every wrapper and every bucket that holds a connection, and every thread that has one in hand, carries the
      key for which the connection was made. */
  lemma {:induction false} KeysKept(ops: seq<Op>)
    ensures Keyed(ops)
  {
    if ops == [] {
      NothingKeyed();
    } else {
      var front, last := ops[..|ops| - 1], ops[|ops| - 1];
      KeysKept(front);
      assert ops == front + [last];
      TasksStep(front, last);
      IdleStep(front, last);
      WrappersStep(front, last);
      MadeStays(front, last);
    }
  }

  lemma NothingKeyed()
    ensures Keyed([])
  {
  }

  // ---------- from the request to the hand-out ----------

  /** While the thread is at it, what it asked for stays what it asked for. */
  lemma {:induction false} AskedSince(ops: seq<Op>, i: nat, t: Thread)
    requires i < |ops| && Begins(ops[..i], ops[i], t)
    requires forall k :: i < k < |ops| ==> !TaskOf(Run(ops[..k]), t).Free?
    ensures AskedKey(ops, t) == ops[i].key
    decreases |ops|
  {
    hide Run;
    var front := ops[..|ops| - 1];
    if i == |ops| - 1 {
      assert front == ops[..i];
    } else {
      assert front[..i] == ops[..i];
      forall k | i < k < |front|
        ensures !TaskOf(Run(front[..k]), t).Free?
      {
        assert front[..k] == ops[..k];
      }
      AskedSince(front, i, t);
    }
  }

  /** From a request for a key to the operation with which the thread gets its wrapper: the wrapper is new and unreturned, it
      carries that key, and its connection was made for that key. */
  lemma {:induction false} GivenAsAsked(ops: seq<Op>, i: nat, j: nat, t: Thread)
    requires i < j < |ops| && Begins(ops[..i], ops[i], t)
    requires forall k :: i < k <= j ==> !TaskOf(Run(ops[..k]), t).Free?
    requires (ops[j].Test? || ops[j].Create?) && ops[j].t == t
    requires TaskOf(Run(ops[..j + 1]), t).Free?
    ensures var before, after := Run(ops[..j]).wrappers, Run(ops[..j + 1]).wrappers;
            && |after| == |before| + 1 && after[..|before|] == before
            && after[|before|].key == ops[i].key && !after[|before|].returned
            && MadeFor(ops[..j + 1], after[|before|].raw) == Some(ops[i].key)
  {
    var front := ops[..j];
    assert ops[..j + 1] == front + [ops[j]] && front[..i] == ops[..i];
    forall k | i < k < |front|
      ensures !TaskOf(Run(front[..k]), t).Free?
    {
      assert front[..k] == ops[..k];
    }
    AskedSince(front, i, t);
    KeysKept(front);
    KeysKept(front + [ops[j]]);
    RunSnoc(front, ops[j]);
    assert TaskKeyed(front, t, TaskOf(Run(front), t));
    hide Run, MadeFor, AskedKey, Expired;
  }

  // ---------- what the single steps decide ----------

  /** A connection that was taken out is handed out exactly when it lives and has waited at most 300 seconds; otherwise it is
      closed and the thread looks on. */
  lemma TestExactly(s: State, t: Thread, alive: bool)
    requires TaskOf(s, t).Testing?
    ensures var p, n := TaskOf(s, t), Step(s, Test(t, alive));
            && n.idle == s.idle
            && (if alive && p.now - p.since <= 300 then
                  n.wrappers == s.wrappers + [Wrapper(p.raw, p.key, false)] && n.closed == s.closed && TaskOf(n, t) == Free
                else
                  n.wrappers == s.wrappers && n.closed == s.closed + {p.raw} && TaskOf(n, t) == Looking(p.key, p.now))
  {
  }

  /** The oldest idle connection of the key is taken; without one a new one is made. */
  lemma TakeExactly(s: State, t: Thread)
    requires TaskOf(s, t).Looking?
    ensures var p, n := TaskOf(s, t), Step(s, Take(t));
            && n.wrappers == s.wrappers && n.closed == s.closed
            && (forall k :: k != p.key ==> Bucket(n, k) == Bucket(s, k))
            && (if Bucket(s, p.key) == [] then Bucket(n, p.key) == [] && TaskOf(n, t) == Creating(p.key)
                else
                  var e := Bucket(s, p.key)[0];
                  Bucket(s, p.key) == [e] + Bucket(n, p.key) && TaskOf(n, t) == Testing(p.key, p.now, e.raw, e.since))
  {
  }

  /** A rolled-back connection goes to the end of its bucket unless four wait there already; then it is closed. */
  lemma PutBackExactly(s: State, t: Thread)
    requires TaskOf(s, t).PuttingBack?
    ensures var p, n := TaskOf(s, t), Step(s, PutBack(t));
            && n.wrappers == s.wrappers && TaskOf(n, t) == Free
            && (forall k :: k != p.key ==> Bucket(n, k) == Bucket(s, k))
            && (if |Bucket(s, p.key)| < 4 then
                  Bucket(n, p.key) == Bucket(s, p.key) + [Entry(p.raw, s.clock)] && n.closed == s.closed
                else Bucket(n, p.key) == Bucket(s, p.key) && n.closed == s.closed + {p.raw})
  {
  }
}
