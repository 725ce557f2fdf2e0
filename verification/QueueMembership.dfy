/** The MLFQ queues under any interleaving of CPUs. A step is one instruction
    group of one CPU: taking or dropping a p->lock, changing a process state
    under its lock, or one enqueue or deque under its queue's lock. */
module QueueMembership {
  import opened Distinctness
  import opened RunQueues

  /** Where a CPU is in the scheduler loop. */
  datatype Context =
    | Scan(level: nat)    // about to deque from this level
    | Hand(p: nat)        // dequeued p, about to acquire p->lock
    | Claim(p: nat)       // holds p->lock, about to test p->state
    | InProc(p: nat)      // running process p
    | Leaving(p: nat)     // back from swtch, about to release p->lock

  /** What kernel code or an interrupt handler is doing there. */
  datatype Activity =
    | Idle
    | Locked(t: nat)               // holds t->lock
    | Pending(t: nat, level: nat)  // holds t->lock, made t RUNNABLE, about to enqueue it
    | BoostHand(t: nat)            // mlfq_boost dequeued t, about to acquire t->lock
    | BoostLocked(t: nat)          // mlfq_boost holds t->lock, about to test t->state
    | BoostFree(t: nat)            // mlfq_boost released t->lock, about to enqueue t

  datatype Cpu = Cpu(ctx: Context, act: Activity)

  datatype System = System(state: seq<State>, lock: seq<int>, q: Queues, cpus: seq<Cpu>)

  datatype Kind =
    | Deque | Acquire | Dispatch | Release             // scheduler loop
    | Lock(t: nat) | Unlock                            // around any change to a process
    | Wake(level: nat)                                 // wakeup, kkill
    | Yield(level: nat) | Sleep | Exit | SwitchOut     // the running process, on itself
    | Alloc | Fork | Free                              // allocproc, kfork, freeproc
    | Enqueue
    | BoostDeque(from: nat) | BoostAcquire | BoostTest | BoostEnqueue

  const NONE := -1

  /** The process lock this CPU holds, if any. */
  function Held(c: Cpu): int {
    match c.ctx
    case Claim(p) => p
    case Leaving(p) => p
    case _ =>
      match c.act
      case Locked(t) => t
      case Pending(t, _) => t
      case BoostLocked(t) => t
      case _ => NONE
  }

  /** The process this CPU is executing, if any. */
  function Occupied(c: Cpu): int {
    match c.ctx
    case InProc(p) => p
    case Leaving(p) => p
    case _ => NONE
  }

  /** How often this CPU has p in hand, off every queue. */
  function InHand(c: Cpu, p: nat): nat {
    (if c.ctx == Hand(p) || c.ctx == Claim(p) then 1 else 0) +
    (if (c.act.Pending? && c.act.t == p) || c.act == BoostHand(p) || c.act == BoostLocked(p) || c.act == BoostFree(p)
     then 1 else 0)
  }

  function AllInHand(cpus: seq<Cpu>, p: nat): nat {
    if cpus == [] then 0 else AllInHand(cpus[..|cpus| - 1], p) + InHand(cpus[|cpus| - 1], p)
  }

  function OnQueues(q: Queues, p: nat): nat
    requires |q| == LEVELS
  {
    multiset(q[0])[p] + multiset(q[1])[p] + multiset(q[2])[p] + multiset(q[3])[p]
  }

  /** In how many places p is: on queues and in hands, with multiplicity. */
  function Places(s: System, p: nat): nat
    requires |s.q| == LEVELS
  {
    OnQueues(s.q, p) + AllInHand(s.cpus, p)
  }

  function Runnable(state: seq<State>, p: nat): nat {
    if p < |state| && state[p] == RUNNABLE then 1 else 0
  }

  ghost predicate Shaped(s: System) {
    |s.state| == |s.lock| == NPROC && |s.q| == LEVELS
  }

  /** Each lock has the owner its CPU thinks it has. */
  ghost predicate LocksAgree(s: System) {
    && Shaped(s)
    && (forall c :: 0 <= c < |s.cpus| && Held(s.cpus[c]) != NONE ==>
          0 <= Held(s.cpus[c]) < NPROC && s.lock[Held(s.cpus[c])] == c)
    && (forall t :: 0 <= t < NPROC && s.lock[t] != NONE ==>
          0 <= s.lock[t] < |s.cpus| && Held(s.cpus[s.lock[t]]) == t)
    && (forall c :: 0 <= c < |s.cpus| && (s.cpus[c].ctx.Claim? || s.cpus[c].ctx.Leaving?) ==> s.cpus[c].act.Idle?)
  }

  /** The CPU has locked the process it executes, to take it off itself. */
  predicate Detaching(x: Cpu) {
    x.ctx.Leaving? || (x.ctx.InProc? && (x.act == Locked(x.ctx.p) || (x.act.Pending? && x.act.t == x.ctx.p)))
  }

  /** A process runs on at most one CPU, and only a CPU that holds its lock can
      be found executing it in a state other than RUNNING. */
  ghost predicate RunsOnce(s: System) {
    && Shaped(s)
    && (forall c :: 0 <= c < |s.cpus| && Occupied(s.cpus[c]) != NONE ==>
          var p := Occupied(s.cpus[c]);
          0 <= p < NPROC && (s.state[p] == RUNNING || Detaching(s.cpus[c])))
    && (forall c, d :: 0 <= c < d < |s.cpus| && Occupied(s.cpus[c]) != NONE ==>
          Occupied(s.cpus[c]) != Occupied(s.cpus[d]))
  }

  /** A process is in exactly one place if RUNNABLE, and in none otherwise. */
  ghost predicate OnePlace(s: System) {
    Shaped(s) && forall p: nat :: Places(s, p) == Runnable(s.state, p)
  }

  ghost predicate Inv(s: System) {
    LocksAgree(s) && RunsOnce(s) && OnePlace(s)
  }

  predicate Enabled(s: System, c: nat, k: Kind)
    requires |s.state| == |s.lock| == NPROC && |s.q| == LEVELS && c < |s.cpus|
  {
    var x := s.cpus[c];
    match k
    case Deque => x.ctx.Scan? && x.ctx.level < LEVELS && x.act.Idle?
    case Acquire => x.ctx.Hand? && x.ctx.p < NPROC && x.act.Idle? && s.lock[x.ctx.p] == NONE
    case Dispatch => x.ctx.Claim? && x.ctx.p < NPROC
    case Release => x.ctx.Leaving? && x.ctx.p < NPROC
    case Lock(t) => t < NPROC && x.act.Idle? && (x.ctx.Scan? || x.ctx.Hand? || x.ctx.InProc?) && s.lock[t] == NONE
    case Unlock => x.act.Locked? && x.act.t < NPROC && (x.ctx == InProc(x.act.t) ==> s.state[x.act.t] == RUNNING)
    case Wake(l) => x.act.Locked? && x.act.t < NPROC && l < LEVELS && s.state[x.act.t] == SLEEPING
      && x.ctx != InProc(x.act.t)
    case Yield(l) => x.act.Locked? && x.act.t < NPROC && l < LEVELS && x.ctx == InProc(x.act.t)
      && s.state[x.act.t] == RUNNING
    case Sleep => x.act.Locked? && x.act.t < NPROC && x.ctx == InProc(x.act.t) && s.state[x.act.t] == RUNNING
    case Exit => x.act.Locked? && x.act.t < NPROC && x.ctx == InProc(x.act.t) && s.state[x.act.t] == RUNNING
    case SwitchOut => x.act.Locked? && x.act.t < NPROC && x.ctx == InProc(x.act.t) && s.state[x.act.t] != RUNNING
    case Alloc => x.act.Locked? && x.act.t < NPROC && s.state[x.act.t] == UNUSED
    case Fork => x.act.Locked? && x.act.t < NPROC && s.state[x.act.t] == USED
    case Free => x.act.Locked? && x.act.t < NPROC && s.state[x.act.t] in {USED, ZOMBIE} && x.ctx != InProc(x.act.t)
    case Enqueue => x.act.Pending? && x.act.level < LEVELS
    case BoostDeque(l) => 0 < l < LEVELS && x.act.Idle? && (x.ctx.Scan? || x.ctx.Hand? || x.ctx.InProc?)
    case BoostAcquire => x.act.BoostHand? && x.act.t < NPROC && s.lock[x.act.t] == NONE
    case BoostTest => x.act.BoostLocked? && x.act.t < NPROC
    case BoostEnqueue => x.act.BoostFree?
  }

  function Step(s: System, c: nat, k: Kind): System
    requires |s.state| == |s.lock| == NPROC && |s.q| == LEVELS && c < |s.cpus| && Enabled(s, c, k)
  {
    var x := s.cpus[c];
    match k
    case Deque =>
      var i := x.ctx.level;
      if s.q[i] == [] then s.(cpus := s.cpus[c := x.(ctx := Scan((i + 1) % LEVELS))])
      else s.(cpus := s.cpus[c := x.(ctx := Hand(s.q[i][0]))], q := s.q[i := s.q[i][1..]])
    case Acquire => s.(cpus := s.cpus[c := x.(ctx := Claim(x.ctx.p))], lock := s.lock[x.ctx.p := c])
    case Dispatch =>
      var p := x.ctx.p;
      if s.state[p] == RUNNABLE
      then s.(state := s.state[p := RUNNING], cpus := s.cpus[c := Cpu(InProc(p), Locked(p))])
      else s.(lock := s.lock[p := NONE], cpus := s.cpus[c := x.(ctx := Scan(0))])
    case Release => s.(lock := s.lock[x.ctx.p := NONE], cpus := s.cpus[c := x.(ctx := Scan(0))])
    case Lock(t) => s.(lock := s.lock[t := c], cpus := s.cpus[c := x.(act := Locked(t))])
    case Unlock => s.(lock := s.lock[x.act.t := NONE], cpus := s.cpus[c := x.(act := Idle)])
    case Wake(l) => s.(state := s.state[x.act.t := RUNNABLE], cpus := s.cpus[c := x.(act := Pending(x.act.t, l))])
    case Yield(l) => s.(state := s.state[x.act.t := RUNNABLE], cpus := s.cpus[c := x.(act := Pending(x.act.t, l))])
    case Sleep => s.(state := s.state[x.act.t := SLEEPING])
    case Exit => s.(state := s.state[x.act.t := ZOMBIE])
    case SwitchOut => s.(cpus := s.cpus[c := Cpu(Leaving(x.act.t), Idle)])
    case Alloc => s.(state := s.state[x.act.t := USED])
    case Fork => s.(state := s.state[x.act.t := RUNNABLE], cpus := s.cpus[c := x.(act := Pending(x.act.t, 0))])
    case Free => s.(state := s.state[x.act.t := UNUSED])
    case Enqueue =>
      s.(q := s.q[x.act.level := s.q[x.act.level] + [x.act.t]], cpus := s.cpus[c := x.(act := Locked(x.act.t))])
    case BoostDeque(l) =>
      if s.q[l] == [] then s
      else s.(cpus := s.cpus[c := x.(act := BoostHand(s.q[l][0]))], q := s.q[l := s.q[l][1..]])
    case BoostAcquire => s.(cpus := s.cpus[c := x.(act := BoostLocked(x.act.t))], lock := s.lock[x.act.t := c])
    case BoostTest =>
      s.(lock := s.lock[x.act.t := NONE],
         cpus := s.cpus[c := x.(act := if s.state[x.act.t] == RUNNABLE then BoostFree(x.act.t) else Idle)])
    case BoostEnqueue => s.(q := s.q[0 := s.q[0] + [x.act.t]], cpus := s.cpus[c := x.(act := Idle)])
  }

  // What one step of CPU c can do, whatever its kind.

  /** It leaves its lock alone, takes a free one, or drops the one it has. */
  ghost predicate LockEffect(s: System, s': System, c: nat)
    requires Shaped(s) && c < |s.cpus| == |s'.cpus|
  {
    var h, h' := Held(s.cpus[c]), Held(s'.cpus[c]);
    || (h' == h && s'.lock == s.lock)
    || (h == NONE && 0 <= h' < NPROC && s.lock[h'] == NONE && s'.lock == s.lock[h' := c])
    || (h' == NONE && 0 <= h < NPROC && s'.lock == s.lock[h := NONE])
  }

  /** It changes at most the state of the process it has locked, and that of a
      RUNNING one only if that is the process it executes. */
  ghost predicate StateEffect(s: System, s': System, c: nat)
    requires Shaped(s) && c < |s.cpus| == |s'.cpus|
  {
    var t, o, o' := Held(s.cpus[c]), Occupied(s.cpus[c]), Occupied(s'.cpus[c]);
    && |s'.state| == NPROC
    && (s'.state == s.state
        || (0 <= t < NPROC && s'.state == s.state[t := s'.state[t]] && (s.state[t] != RUNNING || o == t)))
    && (o' == o || o' == NONE || (o' == t && 0 <= t < NPROC && s.state[t] == RUNNABLE))
  }

  lemma {:induction false} HandCounts(cpus: seq<Cpu>, c: nat, y: Cpu, p: nat)
    requires c < |cpus|
    ensures AllInHand(cpus[c := y], p) + InHand(cpus[c], p) == AllInHand(cpus, p) + InHand(y, p)
    ensures InHand(cpus[c], p) <= AllInHand(cpus, p)
  {
    var n := |cpus| - 1;
    if c == n {
      assert cpus[c := y][..n] == cpus[..n];
    } else {
      HandCounts(cpus[..n], c, y, p);
      assert cpus[c := y][..n] == cpus[..n][c := y];
    }
  }

  /** A process in a CPU's hand is RUNNABLE: the "not RUNNABLE" branches of the
      scheduler and of the boost are never taken. */
  lemma InHandIsRunnable(s: System, c: nat, p: nat)
    requires OnePlace(s) && c < |s.cpus| && InHand(s.cpus[c], p) > 0
    ensures p < NPROC && s.state[p] == RUNNABLE
  {
    HandCounts(s.cpus, c, s.cpus[c], p);
    assert Places(s, p) == Runnable(s.state, p);
  }

  lemma DequeKeepsPlaces(q: Queues, i: nat, p: nat)
    requires |q| == LEVELS && i < LEVELS && q[i] != []
    ensures OnQueues(q, p) == OnQueues(q[i := q[i][1..]], p) + if q[i][0] == p then 1 else 0
  {
    assert q[i] == [q[i][0]] + q[i][1..];
  }

  lemma EnqueueKeepsPlaces(q: Queues, i: nat, t: nat, p: nat)
    requires |q| == LEVELS && i < LEVELS
    ensures OnQueues(q[i := q[i] + [t]], p) == OnQueues(q, p) + if t == p then 1 else 0
  {
    assert multiset(q[i] + [t])[p] == multiset(q[i])[p] + if t == p then 1 else 0;
  }

  lemma LockStep(s: System, c: nat, k: Kind)
    requires Inv(s) && c < |s.cpus| && Enabled(s, c, k)
    ensures var s' := Step(s, c, k);
            && Shaped(s') && |s'.cpus| == |s.cpus| && s'.cpus == s.cpus[c := s'.cpus[c]]
            && LockEffect(s, s', c)
            && (s'.cpus[c].ctx.Claim? || s'.cpus[c].ctx.Leaving? ==> s'.cpus[c].act.Idle?)
  {
  }

  lemma StateStep(s: System, c: nat, k: Kind)
    requires Inv(s) && c < |s.cpus| && Enabled(s, c, k)
    ensures var s' := Step(s, c, k);
            && |s'.cpus| == |s.cpus| && StateEffect(s, s', c)
            && (Occupied(s'.cpus[c]) != NONE ==>
                  var p := Occupied(s'.cpus[c]); 0 <= p < NPROC && (s'.state[p] == RUNNING || Detaching(s'.cpus[c])))
  {
  }

  /** What a step of CPU c does to the places of p and to its being RUNNABLE. */
  ghost predicate Conserved(s: System, s': System, c: nat, p: nat)
    requires c < |s.cpus|
  {
    && |s'.cpus| == |s.cpus| && |s'.q| == |s.q| == LEVELS
    && OnQueues(s'.q, p) + InHand(s'.cpus[c], p) + Runnable(s.state, p)
    == OnQueues(s.q, p) + InHand(s.cpus[c], p) + Runnable(s'.state, p)
  }

  lemma DequeStep(s: System, c: nat, k: Kind, p: nat)
    requires Inv(s) && c < |s.cpus| && Enabled(s, c, k) && (k.Deque? || k.BoostDeque?)
    ensures Conserved(s, Step(s, c, k), c, p)
  {
    var i := if k.Deque? then s.cpus[c].ctx.level else k.from;
    if s.q[i] != [] {
      DequeKeepsPlaces(s.q, i, p);
      assert Step(s, c, k).q == s.q[i := s.q[i][1..]];
    }
  }

  lemma EnqueueStep(s: System, c: nat, k: Kind, p: nat)
    requires Inv(s) && c < |s.cpus| && Enabled(s, c, k) && (k.Enqueue? || k.BoostEnqueue?)
    ensures Conserved(s, Step(s, c, k), c, p)
  {
    var i, t := if k.Enqueue? then s.cpus[c].act.level else 0, s.cpus[c].act.t;
    EnqueueKeepsPlaces(s.q, i, t, p);
    assert Step(s, c, k).q == s.q[i := s.q[i] + [t]];
  }

  lemma HandStep(s: System, c: nat, k: Kind, p: nat)
    requires Inv(s) && c < |s.cpus| && Enabled(s, c, k)
    requires !(k.Deque? || k.BoostDeque? || k.Enqueue? || k.BoostEnqueue?)
    ensures Conserved(s, Step(s, c, k), c, p)
  {
    var x := s.cpus[c];
    match k
    case Dispatch => InHandIsRunnable(s, c, x.ctx.p);
    case BoostTest => InHandIsRunnable(s, c, x.act.t);
    case _ =>
  }

  /** Conservation: a step moves p between places, or changes whether it is
      RUNNABLE and in as many places with it. */
  lemma PlaceStep(s: System, c: nat, k: Kind, p: nat)
    requires Inv(s) && c < |s.cpus| && Enabled(s, c, k)
    ensures var s' := Step(s, c, k);
            && |s'.cpus| == |s.cpus| && |s'.q| == LEVELS
            && OnQueues(s'.q, p) + InHand(s'.cpus[c], p) + Runnable(s.state, p)
            == OnQueues(s.q, p) + InHand(s.cpus[c], p) + Runnable(s'.state, p)
  {
    if k.Deque? || k.BoostDeque? {
      DequeStep(s, c, k, p);
    } else if k.Enqueue? || k.BoostEnqueue? {
      EnqueueStep(s, c, k, p);
    } else {
      HandStep(s, c, k, p);
    }
    assert Conserved(s, Step(s, c, k), c, p);
  }

  lemma LocksKept(s: System, s': System, c: nat)
    requires LocksAgree(s) && Shaped(s') && c < |s.cpus| == |s'.cpus| && s'.cpus == s.cpus[c := s'.cpus[c]]
    requires LockEffect(s, s', c)
    requires s'.cpus[c].ctx.Claim? || s'.cpus[c].ctx.Leaving? ==> s'.cpus[c].act.Idle?
    ensures LocksAgree(s')
  {
  }

  lemma RunsKept(s: System, s': System, c: nat)
    requires LocksAgree(s) && RunsOnce(s)
    requires Shaped(s') && c < |s.cpus| == |s'.cpus| && s'.cpus == s.cpus[c := s'.cpus[c]]
    requires StateEffect(s, s', c)
    requires Occupied(s'.cpus[c]) != NONE ==>
               var p := Occupied(s'.cpus[c]); 0 <= p < NPROC && (s'.state[p] == RUNNING || Detaching(s'.cpus[c]))
    ensures RunsOnce(s')
  {
    var t := Held(s.cpus[c]);
    forall d | 0 <= d < |s.cpus| && d != c && Detaching(s.cpus[d])
      ensures Occupied(s.cpus[d]) != t
    {
      assert Held(s.cpus[d]) == Occupied(s.cpus[d]);
    }
  }

  lemma StepKeeps(s: System, c: nat, k: Kind)
    requires Inv(s) && c < |s.cpus| && Enabled(s, c, k)
    ensures Inv(Step(s, c, k)) && |Step(s, c, k).cpus| == |s.cpus|
  {
    var s' := Step(s, c, k);
    LockStep(s, c, k);
    LocksKept(s, s', c);
    StateStep(s, c, k);
    RunsKept(s, s', c);
    forall p: nat
      ensures Places(s', p) == Runnable(s'.state, p)
    {
      assert Places(s, p) == Runnable(s.state, p);
      PlaceStep(s, c, k, p);
      HandCounts(s.cpus, c, s'.cpus[c], p);
    }
  }

  /** A schedule: which CPU takes which step next. */
  ghost predicate Possible(s: System, run: seq<(nat, Kind)>)
    requires Inv(s)
    decreases |run|
  {
    run == [] ||
    (run[0].0 < |s.cpus| && Enabled(s, run[0].0, run[0].1)
     && (StepKeeps(s, run[0].0, run[0].1); Possible(Step(s, run[0].0, run[0].1), run[1..])))
  }

  ghost function Run(s: System, run: seq<(nat, Kind)>): System
    requires Inv(s) && Possible(s, run)
    decreases |run|
  {
    if run == [] then s
    else StepKeeps(s, run[0].0, run[0].1); Run(Step(s, run[0].0, run[0].1), run[1..])
  }

  /** At boot: no processes, empty queues, every CPU entering the scheduler. */
  lemma {:induction false} IdleHands(cpus: seq<Cpu>, p: nat)
    requires forall c :: 0 <= c < |cpus| ==> InHand(cpus[c], p) == 0
    ensures AllInHand(cpus, p) == 0
  {
    if cpus != [] {
      IdleHands(cpus[..|cpus| - 1], p);
    }
  }

  /** A machine on which no process has been made yet. */
  function Boot(ncpu: nat): (s: System)
    ensures Inv(s)
  {
    var s := System(seq(NPROC, _ => UNUSED), seq(NPROC, _ => NONE), [[], [], [], []],
                    seq(ncpu, _ => Cpu(Scan(0), Idle)));
    BootInv(s);
    s
  }

  lemma BootInv(s: System)
    requires Shaped(s) && s.q == [[], [], [], []]
             && (forall p :: 0 <= p < NPROC ==> s.state[p] == UNUSED && s.lock[p] == NONE)
    requires forall c :: 0 <= c < |s.cpus| ==> s.cpus[c] == Cpu(Scan(0), Idle)
    ensures Inv(s)
  {
    forall p: nat
      ensures Places(s, p) == 0
    {
      IdleHands(s.cpus, p);
    }
  }

  lemma {:induction false} RunKeeps(s: System, run: seq<(nat, Kind)>)
    requires Inv(s) && Possible(s, run)
    ensures Inv(Run(s, run))
    decreases |run|
  {
    if run != [] {
      StepKeeps(s, run[0].0, run[0].1);
      RunKeeps(Step(s, run[0].0, run[0].1), run[1..]);
    }
  }

  /** Queue membership, in every state of every schedule of any number of CPUs:
      a process that is not RUNNABLE is on no queue and in no hand; a RUNNABLE
      one is either on exactly one queue once or in the hands of the CPUs once;
      the queues never share or repeat a process; no process runs on two CPUs. */
  lemma QueueMembership(ncpu: nat, run: seq<(nat, Kind)>)
    requires Possible(Boot(ncpu), run)
    ensures var s := Run(Boot(ncpu), run);
            && Inv(s) && Disjoint(s.q)
            && (forall p: nat :: p < NPROC && s.state[p] == RUNNABLE ==> OnQueues(s.q, p) + AllInHand(s.cpus, p) == 1)
            && (forall p: nat :: p < NPROC && s.state[p] != RUNNABLE ==> Absent(s.q, p) && AllInHand(s.cpus, p) == 0)
            && (forall c, d :: 0 <= c < d < |s.cpus| && s.cpus[c].ctx.InProc? && s.cpus[d].ctx.InProc? ==>
                  s.cpus[c].ctx.p != s.cpus[d].ctx.p)
  {
    RunKeeps(Boot(ncpu), run);
    var s := Run(Boot(ncpu), run);
    QueuesDisjoint(s);
    forall p: nat | p < NPROC
      ensures OnQueues(s.q, p) + AllInHand(s.cpus, p) == Runnable(s.state, p)
      ensures s.state[p] != RUNNABLE ==> Absent(s.q, p)
    {
      assert Places(s, p) == Runnable(s.state, p);
      LevelCounts(s.q, p);
    }
    forall c, d | 0 <= c < d < |s.cpus| && s.cpus[c].ctx.InProc? && s.cpus[d].ctx.InProc?
      ensures s.cpus[c].ctx.p != s.cpus[d].ctx.p
    {
      assert Occupied(s.cpus[c]) != Occupied(s.cpus[d]);
    }
  }

  lemma LevelCounts(q: Queues, p: nat)
    requires |q| == LEVELS
    ensures forall i :: 0 <= i < LEVELS ==> multiset(q[i])[p] <= OnQueues(q, p)
    ensures forall i, j :: 0 <= i < j < LEVELS ==> multiset(q[i])[p] + multiset(q[j])[p] <= OnQueues(q, p)
    ensures OnQueues(q, p) == 0 ==> Absent(q, p)
  {
  }

  lemma QueuesDisjoint(s: System)
    requires OnePlace(s)
    ensures Disjoint(s.q)
  {
    forall p: nat
      ensures OnQueues(s.q, p) <= 1
    {
      assert Places(s, p) == Runnable(s.state, p);
    }
    forall i, p: nat | 0 <= i < LEVELS
      ensures multiset(s.q[i])[p] <= 1
    {
      LevelCounts(s.q, p);
    }
    forall i | 0 <= i < LEVELS
      ensures Distinct(s.q[i])
    {
      SingleOccurrence(s.q[i]);
    }
    forall i, j, p: nat | 0 <= i < LEVELS && 0 <= j < LEVELS && p in s.q[i] && p in s.q[j]
      ensures i == j
    {
      LevelCounts(s.q, p);
    }
  }

  lemma SingleOccurrence(s: seq<nat>)
    requires forall p: nat :: multiset(s)[p] <= 1
    ensures Distinct(s)
  {
    forall i, j | 0 <= i < j < |s|
      ensures s[i] != s[j]
    {
      var front, back := s[..j], s[j..];
      assert s == front + back;
      assert front[i] == s[i] && back[0] == s[j];
      assert multiset(s)[s[i]] == multiset(front)[s[i]] + multiset(back)[s[i]];
    }
  }

  /** The precondition of the linked queues: a process about to be enqueued is
      on no queue yet. */
  lemma EnqueueIsSafe(s: System, c: nat)
    requires Inv(s) && c < |s.cpus| && (s.cpus[c].act.Pending? || s.cpus[c].act.BoostFree?)
    ensures s.cpus[c].act.t < NPROC && Absent(s.q, s.cpus[c].act.t)
  {
    var t := s.cpus[c].act.t;
    HandCounts(s.cpus, c, s.cpus[c], t);
    assert Places(s, t) == Runnable(s.state, t);
  }
}
