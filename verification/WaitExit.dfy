/** kwait, kexit, reparent and kkill (xv6/kernel/proc.c) for any number of
    processes: a parent never sleeps through the exit of a child, its own or one
    it inherited as init. A step is one section under a p->lock; wait_lock is
    held across several. Only process p ever sleeps on channel p, so wakeup(p)
    affects p alone. */
module WaitExit {

  datatype Pc =
    | Unused
    | Live                              // elsewhere in user or kernel code
    | WaitEnter                         // kwait, waiting for wait_lock
    | WaitScan(i: nat, kids: bool)      // holds wait_lock, about to look at process i
    | WaitPrepared                      // holds wait_lock, after sleep_prepare(p)
    | WaitDozing                        // released wait_lock, about to call sleep()
    | WaitAsleep
    | ExitEnter                         // kexit, waiting for wait_lock
    | ExitReparent(i: nat, owes: bool)  // holds wait_lock, at process i; owes init a wakeup for it
    | ExitWake                          // holds wait_lock, about to wakeup(p->parent)
    | ExitMark                          // holds wait_lock, about to become a zombie
    | ExitGone                          // ZOMBIE, still holding its p->lock until swtch is done
    | Zombie

  /** chan says of each process p whether its p->chan is p. */
  datatype System = System(lock: int, pc: seq<Pc>, parent: seq<int>, chan: seq<bool>, killed: seq<bool>)

  datatype Kind =
    | StartWait | StartExit | TakeLock | Scan | ScanFails | DropLock | Sleep
    | Reparent | WakeInit | WakeParent | Mark | Leave
    | Kill | Fork(child: nat) | Elsewhere

  const FREE := -1
  const INIT := 0

  ghost predicate Shaped(s: System) {
    |s.pc| == |s.parent| == |s.chan| == |s.killed|
  }

  predicate Ready(s: System, p: nat)
    requires |s.pc| == |s.parent| && p < |s.pc| && s.pc[p].WaitScan?
  {
    var i := s.pc[p].i;
    i < |s.pc| && s.parent[i] == p ==> !s.pc[i].ExitGone?   // else blocked on the child's p->lock
  }

  predicate Enabled(s: System, p: nat, k: Kind)
    requires |s.pc| == |s.parent| == |s.chan| == |s.killed| && p < |s.pc|
  {
    match k
    case StartWait => s.pc[p].Live?
    case StartExit => s.pc[p].Live? && p != INIT
    case TakeLock => (s.pc[p].WaitEnter? || s.pc[p].ExitEnter?) && s.lock == FREE
    case Scan => s.pc[p].WaitScan? && Ready(s, p)
    case ScanFails => s.pc[p].WaitScan?   // copyout of the exit status failed
    case DropLock => s.pc[p].WaitPrepared?
    case Sleep => s.pc[p].WaitDozing?
    case Reparent => s.pc[p].ExitReparent? && !s.pc[p].owes
    case WakeInit => s.pc[p].ExitReparent? && s.pc[p].owes
    case WakeParent => s.pc[p].ExitWake?
    case Mark => s.pc[p].ExitMark?
    case Leave => s.pc[p].ExitGone?
    case Kill => !s.pc[p].Unused?
    case Fork(c) => s.pc[p].Live? && s.lock == FREE && c < |s.pc| && s.pc[c].Unused?
    case Elsewhere => s.pc[p].Live?
  }

  function Woken(s: System, c: int): System
    requires |s.pc| == |s.chan|
  {
    if 0 <= c < |s.pc| && s.chan[c] then
      s.(chan := s.chan[c := false], pc := if s.pc[c].WaitAsleep? then s.pc[c := WaitEnter] else s.pc)
    else s
  }

  function Scanned(s: System, p: nat): System
    requires |s.pc| == |s.parent| == |s.chan| == |s.killed| && p < |s.pc| && s.pc[p].WaitScan?
  {
    var i, kids := s.pc[p].i, s.pc[p].kids;
    if i >= |s.pc| then
      if !kids || s.killed[p] then s.(lock := FREE, pc := s.pc[p := Live])
      else s.(chan := s.chan[p := true], pc := s.pc[p := WaitPrepared])
    else if s.parent[i] != p then s.(pc := s.pc[p := WaitScan(i + 1, kids)])
    else if s.pc[i].Zombie? then s.(lock := FREE, pc := s.pc[i := Unused][p := Live], parent := s.parent[i := FREE])
    else s.(pc := s.pc[p := WaitScan(i + 1, true)])
  }

  function Step(s: System, p: nat, k: Kind): System
    requires |s.pc| == |s.parent| == |s.chan| == |s.killed| && p < |s.pc| && Enabled(s, p, k)
  {
    match k
    case StartWait => s.(pc := s.pc[p := WaitEnter])
    case StartExit => s.(pc := s.pc[p := ExitEnter])
    case TakeLock =>
      s.(lock := p, pc := s.pc[p := if s.pc[p].WaitEnter? then WaitScan(0, false) else ExitReparent(0, false)])
    case Scan => Scanned(s, p)
    case ScanFails => s.(lock := FREE, pc := s.pc[p := Live])
    case DropLock => s.(lock := FREE, pc := s.pc[p := WaitDozing])
    case Sleep => s.(pc := s.pc[p := if s.chan[p] then WaitAsleep else WaitEnter])
    case Reparent =>
      var i := s.pc[p].i;
      if i >= |s.pc| then s.(pc := s.pc[p := ExitWake])
      else if s.parent[i] == p then s.(parent := s.parent[i := INIT], pc := s.pc[p := ExitReparent(i, true)])
      else s.(pc := s.pc[p := ExitReparent(i + 1, false)])
    case WakeInit => var w := Woken(s, INIT); w.(pc := w.pc[p := ExitReparent(s.pc[p].i + 1, false)])
    case WakeParent => var w := Woken(s, s.parent[p]); w.(pc := w.pc[p := ExitMark])
    case Mark => s.(lock := FREE, pc := s.pc[p := ExitGone])
    case Leave => s.(pc := s.pc[p := Zombie])
    case Kill => s.(killed := s.killed[p := true], pc := if s.pc[p].WaitAsleep? then s.pc[p := WaitEnter] else s.pc)
    case Fork(c) =>
      s.(pc := s.pc[c := Live], parent := s.parent[c := p], chan := s.chan[c := false], killed := s.killed[c := false])
    case Elsewhere => s.(chan := s.chan[p := false])
  }

  predicate HoldsLock(pc: Pc) {
    pc.WaitScan? || pc.WaitPrepared? || pc.ExitReparent? || pc.ExitWake? || pc.ExitMark?
  }

  predicate Dead(pc: Pc) {
    pc.ExitGone? || pc.Zombie?
  }

  /** Asleep in kwait, or bound to be once it calls sleep(). */
  predicate Waiting(s: System, p: nat)
    requires p < |s.pc| == |s.chan|
  {
    s.pc[p].WaitAsleep? || (s.pc[p].WaitDozing? && s.chan[p])
  }

  /** c is a zombie child of p. */
  predicate ZombieChild(s: System, p: nat, c: nat)
    requires c < |s.pc| == |s.parent|
  {
    s.parent[c] == p && Dead(s.pc[c])
  }

  /** Init was just given a zombie and is about to be woken for it. */
  predicate Owed(s: System, p: nat)
    requires s.lock < |s.pc|
  {
    p == INIT && 0 <= s.lock && s.pc[s.lock].ExitReparent? && s.pc[s.lock].owes
  }

  /** wait_lock is held by exactly the process in a section under it. */
  ghost predicate LockAgrees(s: System) {
    Shaped(s) && FREE <= s.lock < |s.pc| && forall p :: 0 <= p < |s.pc| ==> (HoldsLock(s.pc[p]) <==> s.lock == p)
  }

  ghost predicate ChanSet(s: System) {
    Shaped(s) && forall p :: 0 <= p < |s.pc| && (s.pc[p].WaitPrepared? || s.pc[p].WaitAsleep?) ==> s.chan[p]
  }

  /** A process about to become a zombie has just woken its parent. */
  ghost predicate ParentAwake(s: System) {
    Shaped(s) && forall p :: 0 <= p < |s.pc| && s.pc[p].ExitMark? && 0 <= s.parent[p] < |s.pc| ==>
        !Waiting(s, s.parent[p])
  }

  /** No process waits, or is about to, while it has a zombie child. */
  ghost predicate NoneMissed(s: System)
    requires s.lock < |s.pc|
  {
    Shaped(s) && forall p, c :: 0 <= p < |s.pc| && 0 <= c < |s.pc| && ZombieChild(s, p, c) ==>
      && (Waiting(s, p) ==> Owed(s, p))
      && !(s.pc[p].WaitScan? && c < s.pc[p].i)
      && !s.pc[p].WaitPrepared?
  }

  ghost predicate Inv(s: System) {
    LockAgrees(s) && ChanSet(s) && ParentAwake(s) && NoneMissed(s)
  }

  /** Where a zombie child can come from. */
  lemma ZombieOrigin(s: System, p: nat, k: Kind, q: nat, c: nat)
    requires Shaped(s) && p < |s.pc| && Enabled(s, p, k) && q < |s.pc| && c < |s.pc|
    ensures var s' := Step(s, p, k);
            && Shaped(s') && |s'.pc| == |s.pc|
            && (ZombieChild(s', q, c) ==>
                  || ZombieChild(s, q, c)
                  || (k.Mark? && c == p && s.parent[p] == q)
                  || (k.Reparent? && q == INIT && s'.pc[p] == ExitReparent(c, true)))
  {
  }

  lemma LockKept(s: System, p: nat, k: Kind)
    requires LockAgrees(s) && p < |s.pc| && Enabled(s, p, k)
    ensures LockAgrees(Step(s, p, k)) && |Step(s, p, k).pc| == |s.pc|
  {
  }

  lemma ChanKept(s: System, p: nat, k: Kind)
    requires LockAgrees(s) && ChanSet(s) && p < |s.pc| && Enabled(s, p, k)
    ensures ChanSet(Step(s, p, k))
  {
    assert HoldsLock(s.pc[p]) <==> s.lock == p;
  }

  /** Only a process that has prepared to sleep comes to wait. */
  lemma WaitOrigin(s: System, p: nat, k: Kind, q: nat)
    requires Shaped(s) && p < |s.pc| && Enabled(s, p, k) && q < |s.pc|
    ensures var s' := Step(s, p, k);
            && |s'.pc| == |s'.chan| == |s.pc|
            && (Waiting(s', q) ==> Waiting(s, q) || s.pc[q].WaitPrepared?)
  {
  }

  lemma ParentKept(s: System, p: nat, k: Kind)
    requires LockAgrees(s) && ChanSet(s) && ParentAwake(s) && p < |s.pc| && Enabled(s, p, k)
    ensures ParentAwake(Step(s, p, k))
  {
    var s' := Step(s, p, k);
    forall q | 0 <= q < |s.pc| && s'.pc[q].ExitMark? && 0 <= s'.parent[q] < |s.pc|
      ensures !Waiting(s', s'.parent[q])
    {
      assert HoldsLock(s.pc[p]) <==> s.lock == p;
      assert HoldsLock(s.pc[q]) <==> s.lock == q;
      assert s.pc[q].ExitMark? || (q == p && k.WakeParent?);
    }
  }

  lemma NoneMissedKept(s: System, p: nat, k: Kind, q: nat, c: nat)
    requires Inv(s) && p < |s.pc| && Enabled(s, p, k) && q < |s.pc| && c < |s.pc|
    requires LockAgrees(Step(s, p, k)) && |Step(s, p, k).pc| == |s.pc| && ZombieChild(Step(s, p, k), q, c)
    ensures var s' := Step(s, p, k);
            && (Waiting(s', q) ==> Owed(s', q))
            && !(s'.pc[q].WaitScan? && c < s'.pc[q].i) && !s'.pc[q].WaitPrepared?
  {
    ZombieOrigin(s, p, k, q, c);
    var s' := Step(s, p, k);
    assert HoldsLock(s.pc[p]) <==> s.lock == p;
    assert HoldsLock(s.pc[q]) <==> s.lock == q;
    WaitOrigin(s, p, k, q);
  }

  lemma StepKeeps(s: System, p: nat, k: Kind)
    requires Inv(s) && p < |s.pc| && Enabled(s, p, k)
    ensures Inv(Step(s, p, k)) && |Step(s, p, k).pc| == |s.pc|
  {
    var s' := Step(s, p, k);
    LockKept(s, p, k);
    ChanKept(s, p, k);
    ParentKept(s, p, k);
    forall q, c | 0 <= q < |s.pc| && 0 <= c < |s.pc| && ZombieChild(s', q, c)
      ensures (Waiting(s', q) ==> Owed(s', q)) && !(s'.pc[q].WaitScan? && c < s'.pc[q].i) && !s'.pc[q].WaitPrepared?
    {
      NoneMissedKept(s, p, k, q, c);
    }
  }

  ghost predicate Possible(s: System, run: seq<(nat, Kind)>)
    requires Inv(s)
    decreases |run|
  {
    run == [] ||
    (run[0].0 < |s.pc| && Enabled(s, run[0].0, run[0].1)
     && (StepKeeps(s, run[0].0, run[0].1); Possible(Step(s, run[0].0, run[0].1), run[1..])))
  }

  ghost function Run(s: System, run: seq<(nat, Kind)>): System
    requires Inv(s) && Possible(s, run)
    decreases |run|
  {
    if run == [] then s
    else StepKeeps(s, run[0].0, run[0].1); Run(Step(s, run[0].0, run[0].1), run[1..])
  }

  /** n process slots, with init the only process. */
  ghost function Boot(n: nat): (s: System)
    requires n > 0
    ensures Inv(s)
  {
    System(FREE, seq(n, i => if i == INIT then Live else Unused), seq(n, _ => FREE), seq(n, _ => false),
           seq(n, _ => false))
  }

  lemma {:induction false} RunKeeps(s: System, run: seq<(nat, Kind)>)
    requires Inv(s) && Possible(s, run)
    ensures Inv(Run(s, run)) && |Run(s, run).pc| == |s.pc|
    decreases |run|
  {
    if run != [] {
      StepKeeps(s, run[0].0, run[0].1);
      RunKeeps(Step(s, run[0].0, run[0].1), run[1..]);
    }
  }

  /** In every state of every schedule, while wait_lock is free no process is
      asleep in kwait, or about to be, with a zombie child. */
  lemma NoMissedExit(n: nat, run: seq<(nat, Kind)>)
    requires n > 0 && Possible(Boot(n), run)
    ensures var s := Run(Boot(n), run);
            && Shaped(s) && |s.pc| == n
            && (s.lock == FREE ==> forall p, c :: 0 <= p < n && 0 <= c < n && Waiting(s, p) ==> !ZombieChild(s, p, c))
  {
    RunKeeps(Boot(n), run);
  }
}
