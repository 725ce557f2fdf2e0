/** The several-CPU machine of QueueMembership over the linked lists of RunQueues: every
    enqueue and deque of its steps, done by proc.c's code on heads, tails and links,
    leaves lists that spell the machine's queues. */
module LinkedQueues {
  import opened RunQueues
  import opened QueueMembership

  /** One step of CPU c, with the operation on the lists that belongs to it. What the
      scheduler and the boost go on with is what deque returns. */
  method LinkedStep(rq: RunQueues, s: System, c: nat, k: Kind) returns (s': System, p: int)
    requires rq.Valid() && Inv(s) && rq.q == s.q && c < |s.cpus| && Enabled(s, c, k)
    modifies rq
    ensures s' == Step(s, c, k) && Inv(s') && rq.Valid() && rq.q == s'.q && p >= NULL
    ensures k.Deque? ==> s'.cpus[c] == s.cpus[c].(ctx := if p == NULL then Scan((s.cpus[c].ctx.level + 1) % LEVELS)
                                                         else Hand(p))
    ensures k.BoostDeque? ==> s'.cpus[c] == s.cpus[c].(act := if p == NULL then Idle else BoostHand(p))
  {
    StepKeeps(s, c, k);
    var x := s.cpus[c];
    s', p := Step(s, c, k), NULL;
    match k {
      case Deque => p := rq.Deque(x.ctx.level);
      case BoostDeque(level) => p := rq.Deque(level);
      case Enqueue =>
        EnqueueIsSafe(s, c);
        rq.Enqueue(x.act.level, x.act.t);
      case BoostEnqueue =>
        EnqueueIsSafe(s, c);
        rq.Enqueue(0, x.act.t);
      case _ =>
    }
  }

  /** Whatever the schedule, from boot on: the lists spell the machine's queues. */
  method LinkedRun(ncpu: nat, run: seq<(nat, Kind)>) returns (rq: RunQueues, s: System)
    requires Possible(Boot(ncpu), run)
    ensures s == Run(Boot(ncpu), run) && fresh(rq) && rq.Valid() && rq.q == s.q
  {
    rq := new RunQueues();
    s := Boot(ncpu);
    var i := 0;
    assert run[0..] == run;
    while i < |run|
      invariant 0 <= i <= |run| && fresh(rq) && rq.Valid() && rq.q == s.q
      invariant Inv(s) && Possible(s, run[i..]) && Run(s, run[i..]) == Run(Boot(ncpu), run)
    {
      assert run[i..][0] == run[i] && run[i..][1..] == run[i + 1..];
      var p;
      s, p := LinkedStep(rq, s, run[i].0, run[i].1);
      i := i + 1;
    }
  }
}
