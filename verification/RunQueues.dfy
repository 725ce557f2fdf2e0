/** xv6/kernel/proc.c and trap.c, the MLFQ scheduler's queues: four intrusive
    FIFO lists through proc.next, and the operations on them. */
module RunQueues {
  import opened Distinctness

  const NPROC := 64
  const LEVELS := 4
  const BOOST := 48
  const NULL := -1

  function Slice(priority: nat): nat {
    if priority == 0 then 1 else if priority == 1 then 4 else if priority == 2 then 8 else 16
  }

  datatype State = UNUSED | USED | SLEEPING | RUNNABLE | RUNNING | ZOMBIE

  datatype Proc = Proc(state: State, priority: nat, ticksUsed: nat)

  type Queues = seq<seq<nat>>

  /** Process p is on no queue. */
  ghost predicate Absent(q: Queues, p: nat) {
    forall i :: 0 <= i < |q| ==> p !in q[i]
  }

  /** Every process is on at most one queue, at most once. */
  ghost predicate Disjoint(q: Queues) {
    && (forall i :: 0 <= i < |q| ==> Distinct(q[i]))
    && (forall i, j, p: nat :: 0 <= i < |q| && 0 <= j < |q| && p in q[i] && p in q[j] ==> i == j)
  }

  /** head, tail and next link exactly the processes of s, in order. */
  ghost predicate Chain(next: seq<int>, head: int, tail: int, s: seq<nat>) {
    && (forall k :: 0 <= k < |s| ==> s[k] < |next|)
    && head == (if s == [] then NULL else s[0])
    && tail == (if s == [] then NULL else s[|s| - 1])
    && (forall k {:trigger next[s[k]]} :: 0 <= k < |s| ==> next[s[k]] == if k + 1 < |s| then s[k + 1] else NULL)
  }

  /** Appending at the tail. */
  lemma ChainAppend(next: seq<int>, head: int, tail: int, s: seq<nat>, p: nat)
    requires Chain(next, head, tail, s) && Distinct(s) && p < |next| && p !in s
    ensures tail != NULL ==> 0 <= tail < |next| && tail != p
    ensures var cleared := next[p := NULL];
            if tail == NULL then Chain(cleared, p, p, s + [p])
            else Chain(cleared[tail := p], head, p, s + [p])
  {
    var t := s + [p];
    var next' := if tail == NULL then next[p := NULL] else next[p := NULL][tail := p];
    forall k | 0 <= k < |t|
      ensures next'[t[k]] == if k + 1 < |t| then t[k + 1] else NULL
    {
      if k + 1 < |s| {
        assert next[s[k]] == s[k + 1];
        assert s[k] != s[|s| - 1];
      }
    }
  }

  /** Removing at the head. */
  lemma ChainTail(next: seq<int>, head: int, tail: int, s: seq<nat>)
    requires Chain(next, head, tail, s) && Distinct(s) && s != []
    ensures 0 <= head < |next|
    ensures var after := next[head];
            Chain(next[head := NULL], after, if after == NULL then NULL else tail, s[1..])
  {
    var t := s[1..];
    assert next[s[0]] == if 1 < |s| then s[1] else NULL;
    forall k | 0 <= k < |t|
      ensures next[head := NULL][t[k]] == if k + 1 < |t| then t[k + 1] else NULL
    {
      assert t[k] == s[k + 1] != s[0];
      assert next[s[k + 1]] == if k + 2 < |s| then s[k + 2] else NULL;
    }
  }

  /** A list is untouched by changes to the link of a process not on it. */
  lemma ChainFrame(next: seq<int>, head: int, tail: int, s: seq<nat>, p: nat, v: int)
    requires Chain(next, head, tail, s) && p < |next| && p !in s
    ensures Chain(next[p := v], head, tail, s)
  {
    forall k | 0 <= k < |s|
      ensures next[p := v][s[k]] == if k + 1 < |s| then s[k + 1] else NULL
    {
      assert s[k] != p;
    }
  }

  /** The processes of s that the boost keeps. */
  function Runnables(procs: seq<Proc>, s: seq<nat>): (r: seq<nat>)
    requires forall k :: 0 <= k < |s| ==> s[k] < |procs|
  {
    if s == [] then []
    else var k := |s| - 1; Runnables(procs, s[..k]) + if procs[s[k]].state == RUNNABLE then [s[k]] else []
  }

  /** The first level from i on that holds a process, or LEVELS. */
  function FirstReady(q: Queues, i: nat): (r: nat)
    requires |q| == LEVELS && i <= LEVELS
    ensures i <= r <= LEVELS && (r < LEVELS ==> q[r] != [])
    ensures forall j :: i <= j < r ==> q[j] == []
    decreases LEVELS - i
  {
    if i == LEVELS then i else if q[i] != [] then i else FirstReady(q, i + 1)
  }

  class RunQueues {
    var next: seq<int>
    var head: seq<int>
    var tail: seq<int>
    var procs: seq<Proc>
    ghost var q: Queues   // the four queues, front first

    ghost predicate Valid()
      reads this
    {
      && |next| == |procs| == NPROC && |head| == |tail| == |q| == LEVELS
      && Disjoint(q)
      && (forall i :: 0 <= i < LEVELS ==> Chain(next, head[i], tail[i], q[i]))
      && (forall p :: 0 <= p < NPROC ==> procs[p].priority < LEVELS)
    }

    /** procinit. */
    constructor ()
      ensures Valid() && q == [[], [], [], []]
      ensures forall p :: 0 <= p < NPROC ==> procs[p] == Proc(UNUSED, 0, 0)
    {
      next := seq(NPROC, _ => NULL);
      head, tail := [NULL, NULL, NULL, NULL], [NULL, NULL, NULL, NULL];
      procs := seq(NPROC, _ => Proc(UNUSED, 0, 0));
      q := [[], [], [], []];
    }

    method Enqueue(i: nat, p: nat)
      requires Valid() && i < LEVELS && p < NPROC && Absent(q, p)
      modifies `next, `head, `tail, `q
      ensures Valid() && q == old(q)[i := old(q)[i] + [p]]
    {
      ChainAppend(next, head[i], tail[i], q[i], p);
      ghost var was := next;
      next := next[p := NULL];
      if tail[i] == NULL {
        head := head[i := p];
        tail := tail[i := p];
      } else {
        next := next[tail[i] := p];
        tail := tail[i := p];
      }
      forall j | 0 <= j < LEVELS && j != i
        ensures Chain(next, head[j], tail[j], q[j])
      {
        ChainFrame(was, head[j], tail[j], q[j], p, NULL);
        if old(tail)[i] != NULL {
          assert old(tail)[i] in q[i];
          ChainFrame(was[p := NULL], head[j], tail[j], q[j], old(tail)[i], p);
        }
      }
      q := q[i := q[i] + [p]];
    }

    method Deque(i: nat) returns (p: int)
      requires Valid() && i < LEVELS
      modifies `next, `head, `tail, `q
      ensures Valid()
      ensures old(q)[i] == [] ==> p == NULL && q == old(q)
      ensures old(q)[i] != [] ==> p == old(q)[i][0] && q == old(q)[i := old(q)[i][1..]] && Absent(q, p)
    {
      p := head[i];
      if p == NULL {
        return;
      }
      ChainTail(next, head[i], tail[i], q[i]);
      ghost var was := next;
      head := head[i := next[p]];
      if head[i] == NULL {
        tail := tail[i := NULL];
      }
      next := next[p := NULL];
      forall j | 0 <= j < LEVELS && j != i
        ensures Chain(next, head[j], tail[j], q[j])
      {
        assert p in q[i];
        ChainFrame(was, head[j], tail[j], q[j], p, NULL);
      }
      q := q[i := q[i][1..]];
    }

    /** deque_highest_priority_p. */
    method DequeHighest() returns (p: int)
      requires Valid()
      modifies `next, `head, `tail, `q
      ensures Valid()
      ensures var i := FirstReady(old(q), 0);
              if i == LEVELS then p == NULL && q == old(q)
              else p == old(q)[i][0] && q == old(q)[i := old(q)[i][1..]] && Absent(q, p)
    {
      for i := 0 to LEVELS
        invariant Valid() && q == old(q) && FirstReady(q, 0) == FirstReady(q, i)
      {
        p := Deque(i);
        if p != NULL {
          return;
        }
      }
      return NULL;
    }

    /** mlfq_tick: charge the running process for a tick; has its slice run out? */
    method Tick(p: nat) returns (expired: bool)
      requires Valid() && p < NPROC
      modifies `procs
      ensures Valid()
      ensures procs == old(procs)[p := old(procs)[p].(ticksUsed := old(procs)[p].ticksUsed + 1)]
      ensures expired <==> procs[p].ticksUsed >= Slice(procs[p].priority)
    {
      procs := procs[p := procs[p].(ticksUsed := procs[p].ticksUsed + 1)];
      expired := procs[p].ticksUsed >= Slice(procs[p].priority);
    }

    /** mlfq_timeslice_expired: demote by one level, down to the last. */
    method TimesliceExpired(p: nat)
      requires Valid() && p < NPROC
      modifies `procs
      ensures Valid() && procs == old(procs)[p := Demoted(old(procs)[p])]
    {
      if procs[p].priority < 3 {
        procs := procs[p := procs[p].(priority := procs[p].priority + 1)];
      }
      procs := procs[p := procs[p].(ticksUsed := 0)];
    }

    /** mlfq_highest_priority_ready: is a process waiting on a level above p's? */
    method HigherReady(p: nat) returns (ready: bool)
      requires Valid() && p < NPROC
      ensures ready <==> FirstReady(q, 0) < procs[p].priority
    {
      for i := 0 to procs[p].priority
        invariant forall j :: 0 <= j < i ==> q[j] == []
      {
        if head[i] != NULL {
          return true;
        }
      }
      return false;
    }

    /** The inner loop of mlfq_boost: move level i behind level 0. */
    method DrainLevel(i: nat)
      requires Valid() && 0 < i < LEVELS
      modifies `next, `head, `tail, `q, `procs
      ensures Valid() && SameStates(old(procs), procs) && |q| == |old(q)|
      ensures q == old(q)[0 := old(q)[0] + Runnables(old(procs), old(q)[i])][i := []]
    {
      ghost var q0, s, before := q[0], q[i], procs;
      ghost var k := 0;
      var p := Deque(i);
      while p != NULL
        invariant Valid() && SameStates(before, procs)
        invariant if p == NULL then k == |s| && q[i] == []
                  else k < |s| && p == s[k] && q[i] == s[k + 1..] && Absent(q, p)
        invariant q[0] == q0 + Runnables(before, s[..k])
        invariant forall j :: 0 < j < LEVELS && j != i ==> q[j] == old(q)[j]
        decreases |s| - k
      {
        OneMore(before, q0, s, k);
        p := BoostOne(i, p);
        k := k + 1;
      }
      assert s[..k] == s;
    }

    /** The body of that loop, up to dequeuing the next process. */
    method BoostOne(i: nat, p: nat) returns (p': int)
      requires Valid() && 0 < i < LEVELS && p < NPROC && Absent(q, p)
      modifies `next, `head, `tail, `q, `procs
      ensures Valid() && SameStates(old(procs), procs)
      ensures q[0] == old(q)[0] + if old(procs)[p].state == RUNNABLE then [p] else []
      ensures old(q)[i] == [] ==> p' == NULL && q[i] == []
      ensures old(q)[i] != [] ==> p' == old(q)[i][0] && q[i] == old(q)[i][1..] && Absent(q, p')
      ensures forall j :: 0 < j < LEVELS && j != i ==> q[j] == old(q)[j]
    {
      KeepRunnable(p);
      p' := Deque(i);
    }

    /** The boost's treatment of one dequeued process. */
    method KeepRunnable(p: nat)
      requires Valid() && p < NPROC && Absent(q, p)
      modifies `next, `head, `tail, `q, `procs
      ensures Valid() && SameStates(old(procs), procs)
      ensures q == if old(procs)[p].state == RUNNABLE then old(q)[0 := old(q)[0] + [p]] else old(q)
    {
      if procs[p].state == RUNNABLE {
        procs := procs[p := procs[p].(priority := 0, ticksUsed := 0)];
        Enqueue(0, p);
      }
    }

    /** mlfq_boost, on one CPU: levels 1 to 3 go behind level 0, in order, and
        every process starts afresh. */
    method Boost()
      requires Valid()
      modifies `next, `head, `tail, `q, `procs
      ensures Valid() && q == Boosted(old(procs), old(q))
      ensures procs == Refreshed(old(procs))
    {
      ghost var before := procs;
      DrainLevel(1);
      SameRunnables(before, procs, old(q)[2]);
      DrainLevel(2);
      SameRunnables(before, procs, old(q)[3]);
      DrainLevel(3);
      assert q == Boosted(before, old(q));
      assert Refreshed(procs) == Refreshed(before);
      RefreshAll();
    }

    /** The last loop of mlfq_boost. */
    method RefreshAll()
      requires |procs| == NPROC
      modifies `procs
      ensures procs == Refreshed(old(procs))
    {
      for p := 0 to NPROC
        invariant |procs| == NPROC
        invariant forall j :: 0 <= j < NPROC ==>
                    procs[j] == if j < p then Fresh(old(procs)[j]) else old(procs)[j]
      {
        procs := procs[p := procs[p].(priority := 0, ticksUsed := 0)];
      }
    }
  }

  function Fresh(p: Proc): Proc {
    p.(priority := 0, ticksUsed := 0)
  }

  function Refreshed(procs: seq<Proc>): (r: seq<Proc>)
    ensures |r| == |procs| && forall p :: 0 <= p < |r| ==> r[p] == Fresh(procs[p])
  {
    seq(|procs|, p requires 0 <= p < |procs| => Fresh(procs[p]))
  }

  function Boosted(procs: seq<Proc>, q: Queues): Queues
    requires |q| == LEVELS && forall i, k :: 0 <= i < LEVELS && 0 <= k < |q[i]| ==> q[i][k] < |procs|
  {
    [q[0] + Runnables(procs, q[1]) + Runnables(procs, q[2]) + Runnables(procs, q[3]), [], [], []]
  }

  lemma {:induction false} SameRunnables(was: seq<Proc>, now: seq<Proc>, s: seq<nat>)
    requires SameStates(was, now) && forall k :: 0 <= k < |s| ==> s[k] < |was|
    ensures Runnables(was, s) == Runnables(now, s)
  {
    if s != [] {
      SameRunnables(was, now, s[..|s| - 1]);
    }
  }

  function Demoted(p: Proc): Proc {
    p.(priority := if p.priority < 3 then p.priority + 1 else p.priority, ticksUsed := 0)
  }

  ghost predicate SameStates(was: seq<Proc>, now: seq<Proc>) {
    |was| == |now| && forall p :: 0 <= p < |was| ==> now[p].state == was[p].state
  }

  lemma OneMore(procs: seq<Proc>, q0: seq<nat>, s: seq<nat>, k: nat)
    requires k < |s| && forall j :: 0 <= j < |s| ==> s[j] < |procs|
    ensures q0 + Runnables(procs, s[..k]) + (if procs[s[k]].state == RUNNABLE then [s[k]] else [])
         == q0 + Runnables(procs, s[..k + 1])
  {
    assert s[..k + 1][..k] == s[..k];
  }
}
