/** xv6/kernel/sleeplock.c over the two-phase sleep of proc.c: any number of
    processes acquiring and releasing one sleep lock, any of them killed at any
    time. A step is one section under lk->lk or under one p->lock. */
module SleepLocks {

  /** Where a process is in acquiresleep or releasesleep. */
  datatype Pc =
    | Outside
    | Entering         // acquiresleep, waiting for lk->lk
    | Testing          // holds lk->lk, at `while (lk->locked)`
    | Prepared         // holds lk->lk, after sleep_prepare(lk)
    | Dozing           // released lk->lk, about to call sleep()
    | Asleep           // p->state == SLEEPING inside sleep()
    | Holding          // owns the sleep lock
    | Exiting          // releasesleep, waiting for lk->lk
    | Waking(i: nat)   // holds lk->lk, cleared lk->locked, wakeup(lk) is at process i

  /** chan says of each process whether its p->chan is lk. */
  datatype System = System(spin: int, locked: bool, pc: seq<Pc>, chan: seq<bool>)

  datatype Kind = Start | TakeSpin | Test | DropSpin | Sleep | Finish | WakeNext | Kill | Elsewhere

  const FREE := -1

  predicate Enabled(s: System, p: nat, k: Kind)
    requires p < |s.pc| == |s.chan|
  {
    match k
    case Start => s.pc[p].Outside?
    case TakeSpin => (s.pc[p].Entering? || s.pc[p].Exiting?) && s.spin == FREE
    case Test => s.pc[p].Testing?
    case DropSpin => s.pc[p].Prepared?
    case Sleep => s.pc[p].Dozing?
    case Finish => s.pc[p].Holding?
    case WakeNext => s.pc[p].Waking?
    case Kill => s.pc[p].Asleep?
    case Elsewhere => s.pc[p].Outside?
  }

  /** wakeup(lk)'s treatment of process i. */
  function Woken(s: System, i: nat): System
    requires i < |s.pc| == |s.chan|
  {
    if s.chan[i] then
      s.(chan := s.chan[i := false], pc := if s.pc[i].Asleep? then s.pc[i := Entering] else s.pc)
    else s
  }

  function Step(s: System, p: nat, k: Kind): System
    requires p < |s.pc| == |s.chan| && Enabled(s, p, k)
  {
    match k
    case Start => s.(pc := s.pc[p := Entering])
    case TakeSpin =>
      if s.pc[p].Entering? then s.(spin := p, pc := s.pc[p := Testing])
      else s.(spin := p, locked := false, pc := s.pc[p := Waking(0)])
    case Test =>
      if s.locked then s.(chan := s.chan[p := true], pc := s.pc[p := Prepared])
      else s.(locked := true, spin := FREE, pc := s.pc[p := Holding])
    case DropSpin => s.(spin := FREE, pc := s.pc[p := Dozing])
    case Sleep => s.(pc := s.pc[p := if s.chan[p] then Asleep else Entering])
    case Finish => s.(pc := s.pc[p := Exiting])
    case WakeNext =>
      var i := s.pc[p].i;
      if i < |s.pc| then
        var w := Woken(s, i);
        w.(pc := w.pc[p := Waking(i + 1)])
      else s.(spin := FREE, pc := s.pc[p := Outside])
    case Kill => s.(pc := s.pc[p := Entering])   // kkill leaves p->chan as it is
    case Elsewhere => s.(chan := s.chan[p := false])   // sleep_prepare on another channel
  }

  predicate HoldsSpin(pc: Pc) {
    pc.Testing? || pc.Prepared? || pc.Waking?
  }

  predicate Owns(pc: Pc) {
    pc.Holding? || pc.Exiting?
  }

  /** Asleep on the lock, or bound to be once it calls sleep(). */
  predicate Waiting(s: System, p: nat)
    requires p < |s.pc| == |s.chan|
  {
    s.pc[p].Asleep? || (s.pc[p].Dozing? && s.chan[p])
  }

  ghost predicate Inv(s: System) {
    && |s.pc| == |s.chan|
    // lk->lk is held by exactly the process in a section under it
    && (forall p :: 0 <= p < |s.pc| ==> (HoldsSpin(s.pc[p]) <==> s.spin == p))
    && (s.spin != FREE ==> 0 <= s.spin < |s.pc|)
    // one owner at most, and none while unlocked
    && (forall p, q :: 0 <= p < q < |s.pc| ==> !(Owns(s.pc[p]) && Owns(s.pc[q])))
    && (forall p :: 0 <= p < |s.pc| && (Owns(s.pc[p]) || s.pc[p].Prepared?) ==> s.locked)
    // whoever waits is still to be woken: the lock is taken, or wakeup(lk) has not got to it
    && (forall p :: 0 <= p < |s.pc| && Waiting(s, p) ==>
          s.locked || (s.spin != FREE && s.pc[s.spin].Waking? && s.pc[s.spin].i <= p))
    && (forall p :: 0 <= p < |s.pc| && s.pc[p].Waking? ==> !s.locked)
    && (forall p :: 0 <= p < |s.pc| && (s.pc[p].Asleep? || s.pc[p].Prepared?) ==> s.chan[p])
  }

  /** No step makes a process wait in vain. */
  lemma WaitersKept(s: System, p: nat, k: Kind)
    requires Inv(s) && p < |s.pc| && Enabled(s, p, k)
    ensures var s' := Step(s, p, k);
            && |s'.pc| == |s'.chan| == |s.pc|
            && (s'.spin != FREE ==> 0 <= s'.spin < |s.pc|)
            && forall q :: 0 <= q < |s'.pc| && Waiting(s', q) ==>
                 s'.locked || (s'.spin != FREE && s'.pc[s'.spin].Waking? && s'.pc[s'.spin].i <= q)
  {
    var s' := Step(s, p, k);
    forall q | 0 <= q < |s'.pc| && Waiting(s', q)
      ensures s'.locked || (s'.spin != FREE && s'.pc[s'.spin].Waking? && s'.pc[s'.spin].i <= q)
    {
      assert Waiting(s, q) || (q == p && s.pc[p].Prepared?);
      assert HoldsSpin(s.pc[p]) <==> s.spin == p;
    }
  }

  /** The spinlock has the holder it should have. */
  lemma SpinKept(s: System, p: nat, k: Kind)
    requires Inv(s) && p < |s.pc| && Enabled(s, p, k)
    ensures var s' := Step(s, p, k);
            |s'.pc| == |s.pc| && forall q :: 0 <= q < |s'.pc| ==> (HoldsSpin(s'.pc[q]) <==> s'.spin == q)
  {
    assert HoldsSpin(s.pc[p]) <==> s.spin == p;
  }

  /** And the sleep lock has one owner at most. */
  lemma OwnerKept(s: System, p: nat, k: Kind)
    requires Inv(s) && p < |s.pc| && Enabled(s, p, k)
    ensures var s' := Step(s, p, k);
            && |s'.pc| == |s.pc|
            && (forall q, r :: 0 <= q < r < |s'.pc| ==> !(Owns(s'.pc[q]) && Owns(s'.pc[r])))
            && (forall q :: 0 <= q < |s'.pc| && (Owns(s'.pc[q]) || s'.pc[q].Prepared?) ==> s'.locked)
  {
    assert HoldsSpin(s.pc[p]) <==> s.spin == p;
  }

  lemma StepKeeps(s: System, p: nat, k: Kind)
    requires Inv(s) && p < |s.pc| && Enabled(s, p, k)
    ensures Inv(Step(s, p, k)) && |Step(s, p, k).pc| == |s.pc|
  {
    SpinKept(s, p, k);
    OwnerKept(s, p, k);
    WaitersKept(s, p, k);
  }

  ghost predicate Possible(s: System, run: seq<(nat, Kind)>)
    requires Inv(s)
    decreases |run|
  {
    run == [] ||
    (run[0].0 < |s.pc| && Enabled(s, run[0].0, run[0].1)
     && (StepKeeps(s, run[0].0, run[0].1); Possible(Step(s, run[0].0, run[0].1), run[1..])))
  }

  ghost function Run(s: System, run: seq<(nat, Kind)>): System
    requires Inv(s) && Possible(s, run)
    decreases |run|
  {
    if run == [] then s
    else StepKeeps(s, run[0].0, run[0].1); Run(Step(s, run[0].0, run[0].1), run[1..])
  }

  /** initsleeplock, with n processes none of which uses the lock yet. */
  function Init(n: nat): (s: System)
    ensures |s.pc| == |s.chan|
  {
    System(FREE, false, seq(n, _ => Outside), seq(n, _ => false))
  }

  lemma {:induction false} RunKeeps(s: System, run: seq<(nat, Kind)>)
    requires Inv(s) && Possible(s, run)
    ensures Inv(Run(s, run)) && |Run(s, run).pc| == |s.pc|
    decreases |run|
  {
    if run != [] {
      StepKeeps(s, run[0].0, run[0].1);
      RunKeeps(Step(s, run[0].0, run[0].1), run[1..]);
    }
  }

  /** In every state of every schedule: at most one process owns the sleep lock,
      and while lk->lk is free no process sleeps on a lock that is not taken. */
  lemma NoLostWakeup(n: nat, run: seq<(nat, Kind)>)
    requires Possible(Init(n), run)
    ensures var s := Run(Init(n), run);
            && |s.pc| == |s.chan| == n
            && (forall p, q :: 0 <= p < q < n ==> !(Owns(s.pc[p]) && Owns(s.pc[q])))
            && (forall p :: 0 <= p < n && Owns(s.pc[p]) ==> s.locked)
            && (s.spin == FREE && !s.locked ==> forall p :: 0 <= p < n ==> !Waiting(s, p))
  {
    RunKeeps(Init(n), run);
  }
}
