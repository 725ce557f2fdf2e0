/** c-shell/src/command.c: what the pipelines of a line need when they are started. Both
    run_pipeline and its background form keep a hundred children and pipes. */
module Pipelines {
  import opened Lexer
  import opened Parser
  import opened Splitter

  const MAXSTAGES := 100

  /** Every pipeline has room for its children. */
  ghost predicate Launchable(js: seq<Job>) {
    forall k {:trigger js[k]} :: 0 <= k < |js| ==> |js[k].stages| <= MAXSTAGES
  }

  /** The first loop of run_pipeline; false stands for a store past the end. */
  method InitChildren(children: array<int>, count: nat) returns (ok: bool)
    requires children.Length == MAXSTAGES
    modifies children
    ensures ok <==> count <= MAXSTAGES
    ensures ok ==> forall k :: 0 <= k < count ==> children[k] == -1
  {
    var i := 0;
    while i < count
      invariant 0 <= i <= count && i <= MAXSTAGES
      invariant forall k :: 0 <= k < i ==> children[k] == -1
    {
      if i == children.Length {
        return false;
      }
      children[i] := -1;
      i := i + 1;
    }
    ok := true;
  }

  /** A command has a stage more than bars. */
  lemma {:induction false} StageCount(ts: seq<Token>, lo: nat, i: nat, hi: nat)
    requires lo <= i <= hi <= |ts|
    ensures |StagesOf(ts, lo, i, hi)| == 1 + Bars(ts, i, hi)
    decreases hi - i
  {
    if i < hi {
      StageCount(ts, if ts[i].kind == Pipe then i + 1 else lo, i + 1, hi);
    }
  }

  /** No command of the line has a hundred bars. */
  predicate FewBars(ts: seq<Token>, lo: nat)
    requires lo <= |ts|
    decreases |ts| - lo
  {
    lo < |ts| ==> Bars(ts, lo, EndOf(ts, lo)) < MAXSTAGES && FewBars(ts, After(ts, lo))
  }

  lemma {:induction false} FewBarsExact(ts: seq<Token>, lo: nat)
    requires lo <= |ts|
    ensures Launchable(JobsOf(ts, lo)) <==> FewBars(ts, lo)
    decreases |ts| - lo
  {
    if lo < |ts| {
      StageCount(ts, lo, lo, EndOf(ts, lo));
      FewBarsExact(ts, After(ts, lo));
      LaunchableCons(JobAt(ts, lo, StagesOf(ts, lo, lo, EndOf(ts, lo))), JobsOf(ts, After(ts, lo)));
    }
  }

  lemma LaunchableCons(j: Job, js: seq<Job>)
    ensures Launchable([j] + js) <==> |j.stages| <= MAXSTAGES && Launchable(js)
  {
    var all := [j] + js;
    assert all[0] == j && forall k {:trigger js[k]} :: 0 <= k < |js| ==> all[k + 1] == js[k];
  }

  /** An accepted line is split as its tokens say and every pipeline of it has room
      exactly when no word is taken for an operator, every stage fits its arrays, and no
      command has a hundred bars. */
  lemma LaunchExact(ts: seq<Token>, lo: nat)
    requires lo <= |ts| && Spelled(ts) && (lo < |ts| ==> Good(ts, lo))
    ensures Jobs(ts, lo) == Ran(true, JobsOf(ts, lo)) && Launchable(JobsOf(ts, lo))
            <==> LineClear(ts, lo) && LineFits(ts, lo) && FewBars(ts, lo)
  {
    SplitExact(ts, lo);
    FewBarsExact(ts, lo);
  }

  // ---- a line that is split well and cannot be started ----

  /** n one-letter commands with bars between. */
  function Piped(n: nat): (ts: seq<Token>)
    requires n > 0
    ensures |ts| == 2 * n - 1 && Alternating(ts)
  {
    seq(2 * n - 1, k => if k % 2 == 0 then Token(Word, "a") else Token(Pipe, "|"))
  }

  /** Commands of one word, with bars between. */
  ghost predicate Alternating(ts: seq<Token>) {
    && |ts| % 2 == 1
    && forall k {:trigger ts[k]} :: 0 <= k < |ts| ==>
         ts[k] == if k % 2 == 0 then Token(Word, "a") else Token(Pipe, "|")
  }

  lemma {:induction false} NoEndHere(ts: seq<Token>, i: nat)
    requires Alternating(ts) && i <= |ts|
    ensures EndOf(ts, i) == |ts|
    decreases |ts| - i
  {
    if i < |ts| {
      NoEndHere(ts, i + 1);
    }
  }

  lemma {:induction false} CountBars(ts: seq<Token>, i: nat)
    requires Alternating(ts) && i <= |ts|
    ensures Bars(ts, i, |ts|) == (|ts| - i) / 2
    decreases |ts| - i
  {
    if i < |ts| {
      CountBars(ts, i + 1);
    }
  }

  lemma OneWordFits(s: seq<Token>)
    requires s == [Token(Word, "a")]
    ensures Fits(s)
  {
    assert Pick(s, 1, Arg) == [] && Pick(s, 1, Input) == [] && Outs(s, 1) == [];
  }

  lemma {:induction false} EachFits(ts: seq<Token>, lo: nat, i: nat)
    requires Alternating(ts) && lo % 2 == 0 && lo <= i <= lo + 1 && i <= |ts| && (i == |ts| ==> i == lo + 1)
    ensures StagesFit(ts, lo, i, |ts|)
    decreases |ts| - i
  {
    if i == lo {
      EachFits(ts, lo, i + 1);
    } else {
      assert ts[lo..i] == [ts[lo]];
      OneWordFits(ts[lo..i]);
      if i < |ts| {
        EachFits(ts, i + 1, i + 1);
      }
    }
  }

  lemma PipedAccepted(ts: seq<Token>)
    requires Alternating(ts)
    ensures Acceptable(ts) && Spelled(ts) && Good(ts, 0) && AllPlain(ts)
  {
    forall k | 0 <= k < |ts|
      ensures Followed(ts, k)
    {
      var t := ts[k];
      if k % 2 == 1 {
        var u := ts[k + 1];
      }
    }
  }

  lemma {:induction false} OneLetterEach(ts: seq<Token>, styles: seq<Style>)
    requires |ts| == |styles| > 0
    requires forall k {:trigger ts[k]} :: 0 <= k < |ts| ==> |Written(ts[k], styles[k])| == 1
    ensures |Line(ts, styles)| == 2 * |ts| - 1
  {
    if |ts| > 1 {
      OneLetterEach(ts[1..], styles[1..]);
    }
  }

  /** Such a line is one job, of as many stages as there are words. */
  lemma PipedJobs(ts: seq<Token>)
    requires Alternating(ts)
    ensures Jobs(ts, 0) == Ran(true, JobsOf(ts, 0)) && |JobsOf(ts, 0)| == 1
    ensures |JobsOf(ts, 0)[0].stages| == 1 + |ts| / 2
  {
    PipedAccepted(ts);
    NoEndHere(ts, 0);
    EachFits(ts, 0, 0);
    PlainLine(ts, 0);
    SplitExact(ts, 0);
    StageCount(ts, 0, 0, |ts|);
    CountBars(ts, 0);
  }

  /** A hundred and one commands are a line the shell accepts and splits as it should, and
      its pipeline has a child too many. */
  lemma PipelineOverrun()
    ensures var line := Line(Piped(MAXSTAGES + 1), seq(2 * MAXSTAGES + 1, _ => Bare));
            && |line| == 401 && Lex(line) == Tokens(Piped(MAXSTAGES + 1)) && Acceptable(Lex(line).tokens)
            && Jobs(Lex(line).tokens, 0) == Ran(true, JobsOf(Lex(line).tokens, 0))
            && !Launchable(JobsOf(Lex(line).tokens, 0))
  {
    var ts, styles := Piped(MAXSTAGES + 1), seq(2 * MAXSTAGES + 1, _ => Bare);
    RoundTrip(ts, styles);
    OneLetterEach(ts, styles);
    PipedAccepted(ts);
    PipedJobs(ts);
    assert |JobsOf(ts, 0)[0].stages| > MAXSTAGES;
  }
}
