/** The MLFQ scheduler on one CPU as a machine driven by events: what trap.c and
    proc.c do to the queues and process states at each timer tick, yield, sleep,
    wakeup, kill, fork and exit. After each, the scheduler loop runs until it has a
    process to run, or no one to run. It takes interrupts itself, so that a tick may
    reach it there, with no process to charge; one pass takes at most one. */
module BoundedWaiting {
  import opened Distinctness
  import opened RunQueues

  /** `killed` are the processes with p->killed set. A killed process that a timer
      interrupt hits in user mode goes straight to kexit, which then runs with
      interrupts off: it is in `deaf`, and time stands still while it is on the CPU. */
  datatype Machine = Machine(procs: seq<Proc>, q: Queues, run: int, ticks: nat, killed: set<nat>, deaf: set<nat>)

  datatype Event =
    | Tick(woken: seq<nat>, user: bool) // timer interrupt; `woken` slept on &ticks
    | Yield | Sleep | Exit              // by the running process
    | Wake(p: nat)                      // wakeup of a sleeping process
    | Kill(p: nat)                      // kkill or setkilled
    | Alloc(p: nat) | Fork(p: nat) | Reap(p: nat)
    | Free(p: nat)                      // a fork that fails

  /** A tick in the scheduler loop: before it takes a process off its queue, or when it
      has one in hand, which is then on no queue and not yet charged. */
  datatype Late = OnTime | LateTick(woken: seq<nat>) | HandTick(woken: seq<nat>)

  /** An event, and the pass of the scheduler loop that follows. */
  datatype Turn = Turn(event: Event, late: Late)

  ghost predicate Queued(m: Machine, p: nat) {
    exists i :: 0 <= i < |m.q| && p in m.q[i]
  }

  ghost predicate Waits(procs: seq<Proc>, i: nat, p: nat) {
    p < |procs| && procs[p].state == RUNNABLE && procs[p].priority == i
  }

  /** What holds between events. In particular a queued process is RUNNABLE and
      on the queue of its own priority, and the CPU idles only if no one waits. */
  ghost predicate Inv(m: Machine) {
    && |m.procs| == NPROC && |m.q| == LEVELS
    && (forall p :: 0 <= p < NPROC ==> m.procs[p].priority < LEVELS)
    && (forall p :: 0 <= p < NPROC && m.procs[p].state == USED ==> m.procs[p].priority == 0)
    && Disjoint(m.q)
    && (forall i, k :: 0 <= i < LEVELS && 0 <= k < |m.q[i]| ==> Waits(m.procs, i, m.q[i][k]))
    && (forall p :: 0 <= p < NPROC && m.procs[p].state == RUNNABLE ==> p in m.q[m.procs[p].priority])
    && (m.run != NULL ==> 0 <= m.run < NPROC && m.procs[m.run].state == RUNNING)
    && (forall p :: 0 <= p < NPROC && m.procs[p].state == RUNNING ==> p == m.run)
  }

  ghost predicate Settled(m: Machine) {
    Inv(m) && (m.run == NULL ==> forall i :: 0 <= i < LEVELS ==> m.q[i] == [])
  }

  /** state = RUNNABLE; enqueue(p->priority, p); */
  function Push(m: Machine, p: nat): Machine
    requires |m.q| == LEVELS && p < |m.procs| && m.procs[p].priority < LEVELS
  {
    var i := m.procs[p].priority;
    m.(procs := m.procs[p := m.procs[p].(state := RUNNABLE)], q := m.q[i := m.q[i] + [p]])
  }

  lemma PushKeeps(m: Machine, p: nat)
    requires Inv(m) && p < NPROC && m.procs[p].state in {SLEEPING, USED}
    ensures Inv(Push(m, p)) && Push(m, p).run == m.run && Push(m, p).ticks == m.ticks
  {
  }

  function Preempted(m: Machine): Machine
    requires |m.q| == LEVELS && 0 <= m.run < |m.procs| && m.procs[m.run].priority < LEVELS
  {
    Push(m, m.run).(run := NULL)
  }

  lemma PreemptKeeps(m: Machine)
    requires Inv(m) && m.run != NULL
    ensures Inv(Preempted(m))
  {
  }

  /** The scheduler loop: with the CPU free, dispatch the first waiting process. */
  function Scheduled(m: Machine): Machine
    requires |m.q| == LEVELS && forall i, k :: 0 <= i < LEVELS && 0 <= k < |m.q[i]| ==> m.q[i][k] < |m.procs|
  {
    var i := FirstReady(m.q, 0);
    if m.run != NULL || i == LEVELS then m
    else
      var p := m.q[i][0];
      m.(procs := m.procs[p := m.procs[p].(state := RUNNING)], q := m.q[i := m.q[i][1..]], run := p)
  }

  lemma ScheduleSettles(m: Machine)
    requires Inv(m)
    ensures Settled(Scheduled(m)) && Scheduled(m).ticks == m.ticks
  {
  }

  /** wakeup(&ticks): every process in w, asleep, is made runnable in turn. */
  function WakeAll(m: Machine, w: seq<nat>): Machine
    requires Wakeable(m, w)
    decreases |w|
  {
    if w == [] then m else WakeAll(Push(m, w[0]), w[1..])
  }

  predicate Wakeable(m: Machine, w: seq<nat>)
    decreases |w|
  {
    w == [] ||
    (&& |m.q| == LEVELS && w[0] < |m.procs| && m.procs[w[0]].priority < LEVELS
     && m.procs[w[0]].state == SLEEPING && Wakeable(Push(m, w[0]), w[1..]))
  }

  /** mlfq_boost, when the tick count says so. */
  function MaybeBoosted(m: Machine): Machine
    requires |m.q| == LEVELS && forall i, k :: 0 <= i < LEVELS && 0 <= k < |m.q[i]| ==> m.q[i][k] < |m.procs|
  {
    if m.ticks % BOOST == 0 then m.(procs := Refreshed(m.procs), q := Boosted(m.procs, m.q)) else m
  }

  /** The running process, charged for a tick and demoted if its slice is over. */
  function ChargedProc(p: Proc): Proc {
    var c := p.(ticksUsed := p.ticksUsed + 1);
    if c.ticksUsed >= Slice(c.priority) then Demoted(c) else c
  }

  /** Its slice is over, or someone ranks higher. */
  predicate MustYield(q: seq<seq<nat>>, p: Proc)
    requires |q| == LEVELS
  {
    p.ticksUsed + 1 >= Slice(p.priority) || FirstReady(q, 0) < p.priority
  }

  /** The timer branch of usertrap and kerneltrap: charge the running process;
      preempt it if its slice ran out (one level down) or someone ranks higher. */
  function Charged(m: Machine): Machine
    requires |m.q| == LEVELS && 0 <= m.run < |m.procs| && m.procs[m.run].priority < LEVELS
  {
    var charged := m.(procs := m.procs[m.run := ChargedProc(m.procs[m.run])]);
    if MustYield(m.q, m.procs[m.run]) then Preempted(charged) else charged
  }

  /** A tick more on the clock. */
  function Later(m: Machine): Machine {
    m.(ticks := m.ticks + 1)
  }

  lemma LaterKeeps(m: Machine)
    requires Inv(m)
    ensures Inv(Later(m))
  {
  }

  predicate Deaf(m: Machine) {
    m.run != NULL && m.run in m.deaf
  }

  predicate Enabled(m: Machine, e: Event) {
    match e
    case Tick(w, _) => Wakeable(Later(m), w) && !Deaf(m)
    case Yield => m.run != NULL
    case Sleep => m.run != NULL
    case Exit => m.run != NULL
    case Wake(p) => p < |m.procs| && m.procs[p].state == SLEEPING
    case Kill(p) => p < |m.procs|
    case Alloc(p) => p < |m.procs| && m.procs[p].state == UNUSED
    case Fork(p) => p < |m.procs| && m.procs[p].state == USED
    case Reap(p) => p < |m.procs| && m.procs[p].state == ZOMBIE
    case Free(p) => p < |m.procs| && m.procs[p].state == USED
  }

  /** clockintr and the timer branch, once the tick is counted and the
      processes sleeping on &ticks are awake. */
  ghost function AfterWake(m: Machine, user: bool): Machine
    requires Inv(m)
  {
    BoostKeeps(m);
    var b := MaybeBoosted(m);
    if b.run == NULL then b
    else if user && b.run in b.killed then b.(deaf := b.deaf + {b.run as nat})
    else Charged(b)
  }

  ghost function Ticked(m: Machine, w: seq<nat>, user: bool): Machine
    requires Inv(m) && Wakeable(m, w)
  {
    WakeAllKeeps(m, w);
    AfterWake(WakeAll(m, w), user)
  }

  ghost function BeforeSchedule(m: Machine, e: Event): Machine
    requires Inv(m) && Enabled(m, e)
  {
    match e
    case Tick(w, user) => Ticked(Later(m), w, user)
    case Yield => Preempted(m)
    case Sleep => m.(procs := m.procs[m.run := m.procs[m.run].(state := SLEEPING)], run := NULL)
    case Exit => m.(procs := m.procs[m.run := m.procs[m.run].(state := ZOMBIE)], run := NULL)
    case Wake(p) => Push(m, p)
    case Kill(p) => (if m.procs[p].state == SLEEPING then Push(m, p) else m).(killed := m.killed + {p})
    case Alloc(p) => m.(procs := m.procs[p := Proc(USED, 0, 0)], killed := m.killed - {p}, deaf := m.deaf - {p})
    case Fork(p) => Push(m, p)
    case Reap(p) => m.(procs := m.procs[p := Proc(UNUSED, 0, 0)], killed := m.killed - {p}, deaf := m.deaf - {p})
    case Free(p) => m.(procs := m.procs[p := Proc(UNUSED, 0, 0)], killed := m.killed - {p}, deaf := m.deaf - {p})
  }

  lemma {:induction false} WakeAllKeeps(m: Machine, w: seq<nat>)
    requires Inv(m) && Wakeable(m, w)
    ensures Inv(WakeAll(m, w)) && WakeAll(m, w).run == m.run && WakeAll(m, w).ticks == m.ticks
    decreases |w|
  {
    if w != [] {
      PushKeeps(m, w[0]);
      WakeAllKeeps(Push(m, w[0]), w[1..]);
    }
  }

  lemma {:induction false} AllRunnable(procs: seq<Proc>, s: seq<nat>)
    requires forall k :: 0 <= k < |s| ==> s[k] < |procs| && procs[s[k]].state == RUNNABLE
    ensures Runnables(procs, s) == s
  {
    if s != [] {
      var k := |s| - 1;
      AllRunnable(procs, s[..k]);
      assert s == s[..k] + [s[k]];
    }
  }

  /** With every queued process RUNNABLE, the boost drops no one. */
  lemma BoostIsConcat(m: Machine)
    requires Inv(m)
    ensures Boosted(m.procs, m.q) == [m.q[0] + m.q[1] + m.q[2] + m.q[3], [], [], []]
  {
    forall i | 0 <= i < LEVELS
      ensures Runnables(m.procs, m.q[i]) == m.q[i]
    {
      assert forall k :: 0 <= k < |m.q[i]| ==> Waits(m.procs, i, m.q[i][k]);
      AllRunnable(m.procs, m.q[i]);
    }
  }

  lemma BoostKeeps(m: Machine)
    requires Inv(m)
    ensures Inv(MaybeBoosted(m)) && MaybeBoosted(m).run == m.run && MaybeBoosted(m).ticks == m.ticks
  {
    if m.ticks % BOOST == 0 {
      BoostIsConcat(m);
      ConcatDistinct(m.q);
      var all := m.q[0] + m.q[1] + m.q[2] + m.q[3];
      forall k | 0 <= k < |all|
        ensures Waits(Refreshed(m.procs), 0, all[k])
      {
        ConcatWaits(m, k);
      }
      forall p | 0 <= p < NPROC && m.procs[p].state == RUNNABLE
        ensures p in all
      {
        assert p in m.q[m.procs[p].priority];
      }
    }
  }

  lemma ConcatWaits(m: Machine, k: nat)
    requires Inv(m) && k < |m.q[0] + m.q[1] + m.q[2] + m.q[3]|
    ensures Waits(Refreshed(m.procs), 0, (m.q[0] + m.q[1] + m.q[2] + m.q[3])[k])
  {
    var p := (m.q[0] + m.q[1] + m.q[2] + m.q[3])[k];
    var i :| 0 <= i < LEVELS && p in m.q[i];
    var j :| 0 <= j < |m.q[i]| && m.q[i][j] == p;
    assert Waits(m.procs, i, m.q[i][j]);
  }

  lemma ConcatDistinct(q: Queues)
    requires |q| == LEVELS && Disjoint(q)
    ensures Distinct(q[0] + q[1] + q[2] + q[3])
  {
    DistinctJoin(q[0], q[1]);
    DistinctJoin(q[0] + q[1], q[2]);
    DistinctJoin(q[0] + q[1] + q[2], q[3]);
  }

  lemma ChargeKeeps(m: Machine)
    requires Inv(m) && m.run != NULL
    ensures Inv(Charged(m)) && Charged(m).ticks == m.ticks
  {
    var p := m.procs[m.run];
    var c := p.(ticksUsed := p.ticksUsed + 1);
    var d := if c.ticksUsed >= Slice(c.priority) then Demoted(c) else c;
    var m' := m.(procs := m.procs[m.run := d]);
    assert Inv(m');
    PreemptKeeps(m');
  }

  lemma AfterWakeKeeps(m: Machine, user: bool)
    requires Inv(m)
    ensures Inv(AfterWake(m, user)) && AfterWake(m, user).ticks == m.ticks
  {
    BoostKeeps(m);
    if m.run != NULL {
      ChargeKeeps(MaybeBoosted(m));
    }
  }

  lemma TickKeeps(m: Machine, w: seq<nat>, user: bool)
    requires Inv(m) && Wakeable(m, w)
    ensures Inv(Ticked(m, w, user)) && Ticked(m, w, user).ticks == m.ticks
  {
    WakeAllKeeps(m, w);
    AfterWakeKeeps(WakeAll(m, w), user);
  }

  lemma StopKeeps(m: Machine, s: State)
    requires Inv(m) && m.run != NULL && s in {SLEEPING, ZOMBIE}
    ensures Inv(m.(procs := m.procs[m.run := m.procs[m.run].(state := s)], run := NULL))
  {
    RunningNotQueued(m);
  }

  lemma BeforeScheduleKeeps(m: Machine, e: Event)
    requires Inv(m) && Enabled(m, e)
    ensures Inv(BeforeSchedule(m, e))
    ensures BeforeSchedule(m, e).ticks == m.ticks + Count(e.Tick?)
  {
    match e
    case Tick(w, user) => TickKeeps(Later(m), w, user);
    case Yield => PreemptKeeps(m);
    case Sleep => StopKeeps(m, SLEEPING);
    case Exit => StopKeeps(m, ZOMBIE);
    case Wake(p) => PushKeeps(m, p);
    case Kill(p) =>
      if m.procs[p].state == SLEEPING {
        PushKeeps(m, p);
      }
    case Fork(p) => PushKeeps(m, p);
    case _ =>
  }

  function Count(b: bool): nat {
    if b then 1 else 0
  }

  /** A tick up to the charge: the wakeups, and the boost if it is due. */
  ghost function Roused(m: Machine, w: seq<nat>): (r: Machine)
    requires Inv(m) && Wakeable(m, w)
    ensures |r.q| == LEVELS
  {
    WakeAllKeeps(m, w);
    MaybeBoosted(WakeAll(m, w))
  }

  lemma RousedKeeps(m: Machine, w: seq<nat>)
    requires Inv(m) && Wakeable(m, w)
    ensures Inv(Roused(m, w)) && Roused(m, w).run == m.run && Roused(m, w).ticks == m.ticks
  {
    WakeAllKeeps(m, w);
    BoostKeeps(WakeAll(m, w));
  }

  /** A tick that charges no one: kerneltrap without a process. */
  ghost function Uncharged(m: Machine, w: seq<nat>): (r: Machine)
    requires Inv(m) && Wakeable(Later(m), w)
    ensures |r.q| == LEVELS
  {
    LaterKeeps(m);
    Roused(Later(m), w)
  }

  lemma UnchargedKeeps(m: Machine, w: seq<nat>)
    requires Inv(m) && Wakeable(Later(m), w)
    ensures var u := Uncharged(m, w);
            Inv(u) && u.run == m.run && u.ticks == m.ticks + 1
  {
    LaterKeeps(m);
    RousedKeeps(Later(m), w);
  }

  /** The free CPU takes a tick before it dispatches. */
  ghost predicate LateEnabled(m: Machine, l: Late) {
    l.LateTick? ==> m.run == NULL && Wakeable(Later(m), l.woken)
  }

  ghost function LateTicked(m: Machine, l: Late): Machine
    requires Inv(m) && LateEnabled(m, l)
  {
    if l.LateTick? then Uncharged(m, l.woken) else m
  }

  lemma LateKeeps(m: Machine, l: Late)
    requires Inv(m) && LateEnabled(m, l)
    ensures var r := LateTicked(m, l);
            Inv(r) && r.run == m.run && r.ticks == m.ticks + Count(l.LateTick?)
  {
    if l.LateTick? {
      UnchargedKeeps(m, l.woken);
    }
  }

  /** Or with the next process in hand; `m` is as if that one ran already. */
  ghost predicate HandEnabled(free: bool, m: Machine, l: Late) {
    l.HandTick? ==> free && m.run != NULL && Wakeable(Later(m), l.woken)
  }

  ghost function HandTicked(m: Machine, l: Late): Machine
    requires Inv(m) && HandEnabled(true, m, l)
  {
    if l.HandTick? then Uncharged(m, l.woken) else m
  }

  lemma HandKeeps(m: Machine, l: Late)
    requires Inv(m) && HandEnabled(true, m, l)
    ensures var r := HandTicked(m, l);
            Inv(r) && r.run == m.run && r.ticks == m.ticks + Count(l.HandTick?)
  {
    if l.HandTick? {
      UnchargedKeeps(m, l.woken);
    }
  }

  /** The pass of the scheduler loop from b on. */
  ghost predicate CanPass(b: Machine, l: Late)
    requires Inv(b)
  {
    LateEnabled(b, l) && (LateKeeps(b, l); HandEnabled(b.run == NULL, Scheduled(LateTicked(b, l)), l))
  }

  ghost function Passed(b: Machine, l: Late): (r: Machine)
    requires Inv(b) && CanPass(b, l)
    ensures |r.q| == LEVELS
  {
    LateKeeps(b, l);
    ScheduleSettles(LateTicked(b, l));
    HandKeeps(Scheduled(LateTicked(b, l)), l);
    HandTicked(Scheduled(LateTicked(b, l)), l)
  }

  lemma PassKeeps(b: Machine, l: Late)
    requires Inv(b) && CanPass(b, l)
    ensures Settled(Passed(b, l)) && Passed(b, l).ticks == b.ticks + Count(!l.OnTime?)
  {
    LateKeeps(b, l);
    ScheduleSettles(LateTicked(b, l));
    HandKeeps(Scheduled(LateTicked(b, l)), l);
  }

  ghost predicate CanTurn(m: Machine, t: Turn)
    requires Inv(m)
  {
    Enabled(m, t.event) && (BeforeScheduleKeeps(m, t.event); CanPass(BeforeSchedule(m, t.event), t.late))
  }

  /** One event, and the dispatching that follows it. */
  ghost function Step(m: Machine, t: Turn): (r: Machine)
    requires Inv(m) && CanTurn(m, t)
    ensures |r.q| == LEVELS
  {
    BeforeScheduleKeeps(m, t.event);
    Passed(BeforeSchedule(m, t.event), t.late)
  }

  lemma StepKeeps(m: Machine, t: Turn)
    requires Inv(m) && CanTurn(m, t)
    ensures Settled(Step(m, t)) && Step(m, t).ticks == m.ticks + Count(t.event.Tick?) + Count(!t.late.OnTime?)
  {
    BeforeScheduleKeeps(m, t.event);
    PassKeeps(BeforeSchedule(m, t.event), t.late);
  }

  function IndexOf(s: seq<nat>, x: nat): (k: nat)
    requires x in s
    ensures k < |s| && s[k] == x
  {
    if s[0] == x then 0 else 1 + IndexOf(s[1..], x)
  }

  /** k, or twice that if the ticks in the scheduler loop count too: then each dispatch
      may come after a charge and a late tick. */
  function Ticks(all: bool, k: nat): nat {
    if all then 2 * k else k
  }

  /** At most this many more ticks can pass before x runs, if no deaf process is on the
      CPU. */
  function Bound(all: bool, q: Queues, ticks: nat, x: nat): nat
    requires |q| == LEVELS
  {
    if x in q[0] then Ticks(all, IndexOf(q[0], x) + 1) else BOOST - ticks % BOOST + Ticks(all, NPROC - 1)
  }

  /** The same in general: no tick passes before a deaf process leaves the CPU, and
      that moves everyone on level 0 up. */
  function Wait(all: bool, m: Machine, x: nat): nat
    requires |m.q| == LEVELS
  {
    Bound(all, m.q, m.ticks, x) - Count(Deaf(m) && x in m.q[0])
  }

  /** x has the same turn on level 0 of both, or none. */
  ghost predicate SameTurn(q: Queues, q': Queues, x: nat) {
    && |q| == |q'| == LEVELS
    && (x in q[0] <==> x in q'[0])
    && (x in q[0] ==> IndexOf(q[0], x) == IndexOf(q'[0], x))
  }

  lemma {:induction false} IndexAppend(s: seq<nat>, t: seq<nat>, x: nat)
    requires x in s
    ensures IndexOf(s + t, x) == IndexOf(s, x)
  {
    if s[0] != x {
      IndexAppend(s[1..], t, x);
      assert (s + t)[1..] == s[1..] + t;
    }
  }

  /** Joining a queue puts no one ahead of x. */
  lemma PushTurn(m: Machine, p: nat, x: nat)
    requires |m.q| == LEVELS && p < |m.procs| && m.procs[p].priority < LEVELS && p != x
    ensures SameTurn(m.q, Push(m, p).q, x)
  {
    if x in m.q[0] {
      IndexAppend(m.q[0], [p], x);
    }
  }

  lemma {:induction false} WakeAllTurn(m: Machine, w: seq<nat>, x: nat)
    requires Inv(m) && Wakeable(m, w) && Queued(m, x)
    ensures Queued(WakeAll(m, w), x) && SameTurn(m.q, WakeAll(m, w).q, x)
    decreases |w|
  {
    if w != [] {
      QueuedWaits(m, x);
      PushKeeps(m, w[0]);
      PushTurn(m, w[0], x);
      var i :| 0 <= i < LEVELS && x in m.q[i];
      assert x in Push(m, w[0]).q[i];
      WakeAllTurn(Push(m, w[0]), w[1..], x);
    }
  }

  /** A dispatch from level 0 moves everyone there up by one. */
  lemma ScheduleBound(all: bool, m: Machine, x: nat)
    requires Inv(m) && Queued(Scheduled(m), x)
    ensures Bound(all, Scheduled(m).q, m.ticks, x)
            <= Bound(all, m.q, m.ticks, x) - Ticks(all, Count(m.run == NULL && x in m.q[0]))
    ensures x in Scheduled(m).q[0] ==> x in m.q[0]
  {
    if m.run == NULL && x in m.q[0] {
      var m' := Scheduled(m);
      assert m'.q == m.q[0 := m.q[0][1..]] && m'.run == m.q[0][0];
      ScheduleSettles(m);
      RunningNotQueued(m');
    }
  }

  lemma RunningNotQueued(m: Machine)
    requires Inv(m) && m.run != NULL
    ensures !Queued(m, m.run)
  {
    forall i, k | 0 <= i < LEVELS && 0 <= k < |m.q[i]|
      ensures m.q[i][k] != m.run
    {
      assert Waits(m.procs, i, m.q[i][k]);
    }
  }

  /** While anyone waits on level 0, a tick preempts whoever runs. */
  lemma ChargeForces(m: Machine, x: nat)
    requires Inv(m) && m.run != NULL && Queued(m, x)
    ensures SameTurn(m.q, Charged(m).q, x)
    ensures x in m.q[0] ==> Charged(m).run == NULL
  {
    QueuedWaits(m, x);
    var p := m.procs[m.run];
    var c := p.(ticksUsed := p.ticksUsed + 1);
    var d := if c.ticksUsed >= Slice(c.priority) then Demoted(c) else c;
    PushTurn(m.(procs := m.procs[m.run := d]), m.run, x);
  }

  /** Level 0 cannot hold all NPROC processes while one of them runs. */
  lemma LevelSize(m: Machine)
    requires Inv(m) && m.run != NULL
    ensures |m.q[0]| < NPROC
  {
    RunningNotQueued(m);
    forall k | 0 <= k < |m.q[0]|
      ensures m.q[0][k] < NPROC
    {
      assert Waits(m.procs, 0, m.q[0][k]);
    }
    assert m.run !in m.q[0];
    Missing(NPROC, m.q[0], m.run);
  }

  lemma LevelFits(m: Machine)
    requires Inv(m)
    ensures |m.q[0]| <= NPROC
  {
    forall k | 0 <= k < |m.q[0]|
      ensures m.q[0][k] < NPROC
    {
      assert Waits(m.procs, 0, m.q[0][k]);
    }
    NodesFit(NPROC, m.q[0]);
  }

  /** A boost brings every waiting process to level 0, and no one past x. */
  lemma BoostTurn(m: Machine, x: nat)
    requires Inv(m) && Queued(m, x) && m.ticks % BOOST == 0
    ensures var q := MaybeBoosted(m).q;
            && x in q[0] && IndexOf(q[0], x) <= NPROC - (if m.run == NULL then 1 else 2)
            && (x in m.q[0] ==> SameTurn(m.q, q, x))
  {
    BoostIsConcat(m);
    BoostKeeps(m);
    LevelFits(MaybeBoosted(m));
    if m.run != NULL {
      LevelSize(MaybeBoosted(m));
    }
    ConcatIndex(m.q, x);
  }

  lemma ConcatIndex(q: Queues, x: nat)
    requires |q| == LEVELS && exists i :: 0 <= i < |q| && x in q[i]
    ensures x in q[0] + q[1] + q[2] + q[3]
    ensures x in q[0] ==> IndexOf(q[0] + q[1] + q[2] + q[3], x) == IndexOf(q[0], x)
  {
    if x in q[0] {
      var rest := q[1] + q[2] + q[3];
      IndexAppend(q[0], rest, x);
      assert q[0] + rest == q[0] + q[1] + q[2] + q[3];
    }
  }

  /** Queues q', some ticks later, against q: on level 0 x keeps its turn, and elsewhere a
      tick brings it closer, or to level 0 with `spare` places to go. */
  ghost predicate Closer(all: bool, q: Queues, ticks: nat, q': Queues, ticks': nat, x: nat, tick: nat, spare: nat) {
    && |q| == |q'| == LEVELS
    && if x in q[0] then SameTurn(q, q', x)
       else Bound(all, q', ticks', x) + tick <= Bound(all, q, ticks, x) + if x in q'[0] then spare else 0
  }

  /** Wakeups and the boost of a tick. */
  lemma RousedCloser(all: bool, m: Machine, w: seq<nat>, x: nat)
    requires Inv(m) && m.ticks > 0 && Wakeable(m, w) && Queued(m, x)
    ensures Queued(Roused(m, w), x)
    ensures Closer(all, m.q, m.ticks - 1, Roused(m, w).q, m.ticks, x, 1, if m.run == NULL then Ticks(all, 1) else 0)
  {
    WakeAllKeeps(m, w);
    WakeAllTurn(m, w, x);
    BoostCloser(all, WakeAll(m, w), x);
  }

  lemma BoostCloser(all: bool, m: Machine, x: nat)
    requires Inv(m) && m.ticks > 0 && Queued(m, x)
    ensures var b := MaybeBoosted(m);
            && Inv(b) && Queued(b, x) && b.run == m.run && b.ticks == m.ticks
            && Closer(all, m.q, m.ticks - 1, b.q, m.ticks, x, 1, if m.run == NULL then Ticks(all, 1) else 0)
  {
    BoostKeeps(m);
    if m.ticks % BOOST == 0 {
      BoostTurn(m, x);
    }
  }

  lemma UnchargedCloser(all: bool, m: Machine, w: seq<nat>, x: nat)
    requires Inv(m) && Wakeable(Later(m), w) && Queued(m, x)
    ensures var u := Uncharged(m, w);
            && Queued(u, x)
            && Closer(all, m.q, m.ticks, u.q, m.ticks + 1, x, 1, if m.run == NULL then Ticks(all, 1) else 0)
  {
    LaterKeeps(m);
    SameQueued(m, x);
    RousedCloser(all, Later(m), w, x);
  }

  lemma SameQueued(m: Machine, x: nat)
    requires Queued(m, x)
    ensures Queued(Later(m), x)
  {
    var i :| 0 <= i < |m.q| && x in m.q[i];
    assert x in Later(m).q[i];
  }

  lemma QueuedWaits(m: Machine, x: nat)
    requires Inv(m) && Queued(m, x)
    ensures x < NPROC && m.procs[x].state == RUNNABLE
  {
    var i :| 0 <= i < LEVELS && x in m.q[i];
    var k :| 0 <= k < |m.q[i]| && m.q[i][k] == x;
    assert Waits(m.procs, i, m.q[i][k]);
  }

  /** What any other event does before the dispatch: x keeps its turn, and a process
      that stays on the CPU stays as deaf as it was. */
  lemma OtherTurn(m: Machine, e: Event, x: nat)
    requires Settled(m) && Enabled(m, e) && !e.Tick? && Queued(m, x)
    ensures var b := BeforeSchedule(m, e);
            && SameTurn(m.q, b.q, x) && b.ticks == m.ticks && (b.run == NULL || b.run == m.run)
            && (b.run != NULL ==> (Deaf(b) <==> Deaf(m)))
  {
    QueuedWaits(m, x);
    match e {
      case Yield => PushTurn(m, m.run, x);
      case Wake(p) => PushTurn(m, p, x);
      case Kill(p) =>
        if m.procs[p].state == SLEEPING {
          PushTurn(m, p, x);
        }
      case Fork(p) => PushTurn(m, p, x);
      case _ =>
    }
  }

  /** An event, before the scheduler runs: x keeps its place, a tick brings it closer,
      and if the CPU is free then, the next dispatch makes good for what is missing. */
  ghost predicate Nearer(all: bool, m: Machine, b: Machine, x: nat, tick: nat) {
    && |m.q| == |b.q| == LEVELS
    && if b.run != NULL then Wait(all, b, x) + tick <= Wait(all, m, x)
       else Bound(all, b.q, b.ticks, x) + tick <= Wait(all, m, x) + Count(x in b.q[0])
  }

  lemma OtherNearer(all: bool, m: Machine, e: Event, x: nat)
    requires Settled(m) && Enabled(m, e) && !e.Tick? && Queued(m, x)
    ensures Nearer(all, m, BeforeSchedule(m, e), x, 0)
  {
    OtherTurn(m, e, x);
  }

  /** The charge, if the process is not killed in user mode. */
  lemma ChargeNearer(all: bool, m: Machine, b: Machine, x: nat)
    requires Inv(b) && b.run != NULL && Queued(b, x) && |m.q| == LEVELS && !Deaf(m)
    requires Closer(all, m.q, m.ticks, b.q, b.ticks, x, 1, 0)
    ensures Nearer(all, m, Charged(b), x, 1)
  {
    ChargeKeeps(b);
    ChargeForces(b, x);
  }

  lemma DeafNearer(all: bool, m: Machine, b: Machine, x: nat)
    requires Inv(b) && b.run != NULL && |m.q| == LEVELS && !Deaf(m)
    requires Closer(all, m.q, m.ticks, b.q, b.ticks, x, 1, 0)
    ensures Nearer(all, m, b.(deaf := b.deaf + {b.run as nat}), x, 1)
  {
  }

  /** Each tick that leaves x waiting brings it closer to running. */
  lemma TickNearer(all: bool, m: Machine, w: seq<nat>, user: bool, x: nat)
    requires Settled(m) && m.run != NULL && Enabled(m, Tick(w, user)) && Queued(m, x)
    ensures Nearer(all, m, BeforeSchedule(m, Tick(w, user)), x, 1)
  {
    LaterKeeps(m);
    SameQueued(m, x);
    RousedCloser(all, Later(m), w, x);
    RousedKeeps(Later(m), w);
    var b := Roused(Later(m), w);
    if user && b.run in b.killed {
      DeafNearer(all, m, b, x);
    } else {
      ChargeNearer(all, m, b, x);
    }
  }

  // ---- the pass of the scheduler loop ----

  /** What the pass makes of a free CPU: the dispatch pays for a tick in it. */
  lemma FreePass(all: bool, b: Machine, l: Late, x: nat)
    requires Inv(b) && b.run == NULL && CanPass(b, l) && Queued(b, x) && Queued(Passed(b, l), x)
    ensures Bound(all, Passed(b, l).q, Passed(b, l).ticks, x) + Count(all && !l.OnTime?) + Count(x in b.q[0])
            <= Bound(all, b.q, b.ticks, x)
  {
    LateKeeps(b, l);
    ScheduleSettles(LateTicked(b, l));
    HandKeeps(Scheduled(LateTicked(b, l)), l);
    match l {
      case OnTime => ScheduleBound(all, b, x);
      case LateTick(w) =>
        LatePass(all, b, w, x);
      case HandTick(w) =>
        HandPass(all, b, w, x);
    }
  }

  lemma LatePass(all: bool, b: Machine, w: seq<nat>, x: nat)
    requires Inv(b) && b.run == NULL && Queued(b, x) && Wakeable(Later(b), w)
    requires Inv(Uncharged(b, w)) && Queued(Scheduled(Uncharged(b, w)), x)
    ensures var d := Scheduled(Uncharged(b, w));
            Bound(all, d.q, d.ticks, x) + Count(all) + Count(x in b.q[0]) <= Bound(all, b.q, b.ticks, x)
  {
    UnchargedKeeps(b, w);
    UnchargedCloser(all, b, w, x);
    ScheduleBound(all, Uncharged(b, w), x);
  }

  lemma HandPass(all: bool, b: Machine, w: seq<nat>, x: nat)
    requires Inv(b) && b.run == NULL && Inv(Scheduled(b)) && Scheduled(b).run != NULL && Queued(b, x)
    requires Wakeable(Later(Scheduled(b)), w) && Queued(Uncharged(Scheduled(b), w), x)
    ensures var u := Uncharged(Scheduled(b), w);
            Bound(all, u.q, u.ticks, x) + Count(all) + Count(x in b.q[0]) <= Bound(all, b.q, b.ticks, x)
  {
    var d := Scheduled(b);
    UnchargedKeeps(d, w);
    RunningNotQueued(Uncharged(d, w));
    DispatchedOrQueued(b, x);
    ScheduleBound(all, b, x);
    UnchargedCloser(all, d, w, x);
  }

  lemma DispatchedOrQueued(b: Machine, x: nat)
    requires Inv(b) && Queued(b, x)
    ensures Queued(Scheduled(b), x) || Scheduled(b).run == x
  {
    var i :| 0 <= i < LEVELS && x in b.q[i];
    var d := Scheduled(b);
    if d.run != x {
      assert x in d.q[i];
    }
  }

  /** Each tick of an event brings x closer, and so do those in the scheduler loop if all
      are to count; nothing pushes it back. */
  lemma TurnBound(all: bool, m: Machine, t: Turn, x: nat)
    requires Settled(m) && CanTurn(m, t) && Queued(m, x) && Queued(Step(m, t), x)
    ensures Wait(all, Step(m, t), x) + Count(t.event.Tick?) + Count(all && !t.late.OnTime?) <= Wait(all, m, x)
  {
    EventNearer(all, m, t.event, x);
    BeforeScheduleKeeps(m, t.event);
    var b := BeforeSchedule(m, t.event);
    if b.run == NULL {
      EventQueued(m, t.event, x);
      FreePass(all, b, t.late, x);
    }
  }

  lemma EventNearer(all: bool, m: Machine, e: Event, x: nat)
    requires Settled(m) && Enabled(m, e) && Queued(m, x)
    ensures Nearer(all, m, BeforeSchedule(m, e), x, Count(e.Tick?))
  {
    if e.Tick? {
      TickNearer(all, m, e.woken, e.user, x);
    } else {
      OtherNearer(all, m, e, x);
    }
  }

  /** No event takes x off its queue; only a dispatch does. */
  lemma EventQueued(m: Machine, e: Event, x: nat)
    requires Settled(m) && Enabled(m, e) && Queued(m, x)
    ensures Queued(BeforeSchedule(m, e), x)
  {
    QueuedWaits(m, x);
    BeforeScheduleKeeps(m, e);
    if e.Tick? {
      SameQueued(m, x);
      TickRunnable(Later(m), e.woken, e.user, x);
    }
    assert BeforeSchedule(m, e).procs[x].state == RUNNABLE;
  }

  lemma TickRunnable(m: Machine, w: seq<nat>, user: bool, x: nat)
    requires Inv(m) && m.ticks > 0 && Wakeable(m, w) && Queued(m, x)
    ensures x < NPROC && |Ticked(m, w, user).procs| == NPROC && Ticked(m, w, user).procs[x].state == RUNNABLE
  {
    RousedCloser(false, m, w, x);
    RousedKeeps(m, w);
    QueuedWaits(Roused(m, w), x);
  }

  // ---- runs ----

  /** The turns can happen one after the other. */
  ghost predicate Possible(m: Machine, ts: seq<Turn>)
    requires Inv(m)
    decreases |ts|
  {
    ts == [] || (CanTurn(m, ts[0]) && (StepKeeps(m, ts[0]); Possible(Step(m, ts[0]), ts[1..])))
  }

  ghost function Run(m: Machine, ts: seq<Turn>): Machine
    requires Inv(m) && Possible(m, ts)
    decreases |ts|
  {
    if ts == [] then m else StepKeeps(m, ts[0]); Run(Step(m, ts[0]), ts[1..])
  }

  /** x is never dispatched: it is on a queue after every turn. */
  ghost predicate KeepsWaiting(m: Machine, ts: seq<Turn>, x: nat)
    requires Inv(m) && Possible(m, ts)
    decreases |ts|
  {
    Queued(m, x) && (ts == [] || (StepKeeps(m, ts[0]); KeepsWaiting(Step(m, ts[0]), ts[1..], x)))
  }

  /** The ticks of a run that find a process on the CPU, or all of its ticks. */
  function TickCount(all: bool, ts: seq<Turn>): nat {
    if ts == [] then 0
    else TickCount(all, ts[1..]) + Count(ts[0].event.Tick?) + Count(all && !ts[0].late.OnTime?)
  }

  lemma {:induction false} WaitIsBounded(all: bool, m: Machine, ts: seq<Turn>, x: nat)
    requires Settled(m) && Possible(m, ts) && KeepsWaiting(m, ts, x)
    ensures TickCount(all, ts) <= Wait(all, m, x)
    decreases |ts|
  {
    if ts != [] {
      StepKeeps(m, ts[0]);
      WaitIsBounded(all, Step(m, ts[0]), ts[1..], x);
      TurnBound(all, m, ts[0], x);
    }
  }

  lemma WaitBelow(all: bool, m: Machine, x: nat)
    requires Settled(m) && Queued(m, x)
    ensures Wait(all, m, x) <= BOOST + Ticks(all, NPROC - 1)
  {
    LevelSize(m);
  }

  /** Bounded waiting: in no run does a RUNNABLE process see 48 + NPROC ticks go by
      without being dispatched, apart from those that come while the scheduler looks for
      a process; and in no run 47 + 2 NPROC, counting these too. */
  lemma BoundedWait(m: Machine, ts: seq<Turn>, x: nat)
    requires Settled(m) && Possible(m, ts) && KeepsWaiting(m, ts, x)
    ensures TickCount(false, ts) < BOOST + NPROC
    ensures TickCount(true, ts) < BOOST + 2 * NPROC - 1
  {
    WaitIsBounded(false, m, ts, x);
    WaitBelow(false, m, x);
    WaitIsBounded(true, m, ts, x);
    WaitBelow(true, m, x);
  }

  /** The machine as procinit leaves it. */
  function Boot(): Machine {
    Machine(seq(NPROC, _ => Proc(UNUSED, 0, 0)), [[], [], [], []], NULL, 0, {}, {})
  }

  /** Every state of every run from boot satisfies the invariant. */
  lemma {:induction false} RunSettles(m: Machine, ts: seq<Turn>)
    requires Settled(m) && Possible(m, ts)
    ensures Settled(Run(m, ts))
    decreases |ts|
  {
    if ts != [] {
      StepKeeps(m, ts[0]);
      RunSettles(Step(m, ts[0]), ts[1..]);
    }
  }

  lemma BootSettled(ts: seq<Turn>)
    requires Possible(Boot(), ts)
    ensures Settled(Run(Boot(), ts))
  {
    RunSettles(Boot(), ts);
  }

  // The kernel's own code for these transitions, over the linked queues.

  /** p->state = RUNNABLE; enqueue(p->priority, p); as in wakeup, kkill and yield. */
  method MakeRunnable(s: RunQueues, p: nat, ghost m: Machine)
    requires s.Valid() && s.procs == m.procs && s.q == m.q && p < NPROC && Absent(s.q, p)
    modifies s
    ensures s.Valid() && s.procs == Push(m, p).procs && s.q == Push(m, p).q
  {
    var i := s.procs[p].priority;
    s.procs := s.procs[p := s.procs[p].(state := RUNNABLE)];
    s.Enqueue(i, p);
  }

  /** The first half of the MLFQ branch of usertrap and kerneltrap. */
  method Charge(s: RunQueues, run: nat) returns (preempt: bool)
    requires s.Valid() && run < NPROC
    modifies s`procs
    ensures s.Valid() && s.procs == old(s.procs)[run := ChargedProc(old(s.procs)[run])]
    ensures preempt <==> MustYield(s.q, old(s.procs)[run])
  {
    var expired := s.Tick(run);
    preempt := true;
    if expired {
      s.TimesliceExpired(run);
    } else {
      preempt := s.HigherReady(run);
    }
  }

  /** The MLFQ branch of usertrap and kerneltrap for the process running. */
  method ChargeRunning(s: RunQueues, run: nat, ghost m: Machine) returns (run': int)
    requires s.Valid() && Inv(m) && s.procs == m.procs && s.q == m.q && m.run == run
    modifies s
    ensures s.Valid() && s.procs == Charged(m).procs && s.q == Charged(m).q && run' == Charged(m).run
  {
    RunningNotQueued(m);
    var preempt := Charge(s, run);
    if preempt {
      MakeRunnable(s, run, m.(procs := s.procs));
      return NULL;
    }
    return run;
  }

  /** clockintr's boost. */
  method BoostIfDue(s: RunQueues, ticks: nat, ghost m: Machine)
    requires s.Valid() && Inv(m) && s.procs == m.procs && s.q == m.q && ticks == m.ticks
    modifies s
    ensures s.Valid() && Inv(MaybeBoosted(m)) && MaybeBoosted(m) == m.(procs := s.procs, q := s.q)
  {
    BoostKeeps(m);
    if ticks % 48 == 0 {
      s.Boost();
    }
  }

  /** clockintr's boost and what usertrap or kerneltrap does then: usertrap, before the
      timer branch, lets a killed process exit. */
  method TimerInterrupt(s: RunQueues, run: int, ticks: nat, user: bool, killed: bool, ghost m: Machine)
    returns (run': int, exits: bool)
    requires s.Valid() && Inv(m) && s.procs == m.procs && s.q == m.q && run == m.run && ticks == m.ticks
    requires run != NULL ==> (killed <==> run in m.killed)
    modifies s
    ensures s.Valid() && (exits <==> run != NULL && user && killed)
    ensures AfterWake(m, user) == m.(procs := s.procs, q := s.q, run := run',
                                     deaf := if exits then m.deaf + {run as nat} else m.deaf)
  {
    BoostIfDue(s, ticks, m);
    run', exits := run, false;
    if run != NULL {
      if user && killed {
        exits := true;
      } else {
        run' := ChargeRunning(s, run, MaybeBoosted(m));
      }
    }
  }

  /** One pass of the scheduler loop on a free CPU. */
  method ScheduleOnce(s: RunQueues, ghost m: Machine) returns (run': int)
    requires s.Valid() && Inv(m) && s.procs == m.procs && s.q == m.q && m.run == NULL
    modifies s
    ensures s.Valid() && s.procs == Scheduled(m).procs && s.q == Scheduled(m).q && run' == Scheduled(m).run
  {
    var p := s.DequeHighest();
    if p == NULL {
      return NULL;
    }
    assert 0 <= p < NPROC && s.procs[p].state == RUNNABLE by {
      var i := FirstReady(m.q, 0);
      assert Waits(m.procs, i, m.q[i][0]);
    }
    if s.procs[p].state == RUNNABLE {
      s.procs := s.procs[p := s.procs[p].(state := RUNNING)];
      return p;
    }
    return NULL;
  }
}
