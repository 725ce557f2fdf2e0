/** How an accepted line is taken apart: c-shell/src/sequence.c at ';' and '&',
    parse_pipeline at '|', and the redirection parsers of c-shell/src/command.c, which
    store into arrays of a hundred entries. */
module Splitter {
  import opened Lexer
  import opened Parser

  const ARGMAX := 100

  datatype Out = Out(name: string, append: bool)

  datatype Stage = Stage(argv: seq<string>, inputs: seq<string>, outputs: seq<Out>)

  datatype Job = Job(background: bool, stages: seq<Stage>)

  // ---- what a stage means ----

  datatype Role = Arg | Input | Output

  /** What the word at i is for, by the token before it. */
  function RoleAt(ts: seq<Token>, i: nat): Role
    requires i < |ts|
  {
    if i > 0 && ts[i - 1].kind == Lt then Input
    else if i > 0 && (ts[i - 1].kind == Gt || ts[i - 1].kind == GtGt) then Output
    else Arg
  }

  /** The words with a role, from i on, in order. */
  function Pick(ts: seq<Token>, i: nat, role: Role): seq<string>
    requires i <= |ts|
    decreases |ts| - i
  {
    if i == |ts| then []
    else if ts[i].kind == Word && RoleAt(ts, i) == role then [ts[i].value] + Pick(ts, i + 1, role)
    else Pick(ts, i + 1, role)
  }

  /** The output files among them. */
  function Outs(ts: seq<Token>, i: nat): seq<Out>
    requires i <= |ts|
    decreases |ts| - i
  {
    if i == |ts| then []
    else if ts[i].kind == Word && RoleAt(ts, i) == Output then
      [Out(ts[i].value, ts[i - 1].kind == GtGt)] + Outs(ts, i + 1)
    else Outs(ts, i + 1)
  }

  function StageOf(ts: seq<Token>): Stage {
    Stage(Pick(ts, 0, Arg), Pick(ts, 0, Input), Outs(ts, 0))
  }

  /** Operators are spelled as the lexer spells them. */
  ghost predicate Spelled(ts: seq<Token>) {
    forall k {:trigger ts[k]} :: 0 <= k < |ts| ==> ts[k].kind == Word || ts[k].value == Spelling(ts[k].kind)
  }

  /** The word at k is not taken for a redirection: the passes go by spelling, and
      only a redirection's own target is safe from the pass that looks for it. */
  predicate Clear(ts: seq<Token>, k: nat)
    requires k < |ts|
  {
    ts[k].kind == Word ==>
      match RoleAt(ts, k)
      case Arg => ts[k].value != "<" && ts[k].value != ">" && ts[k].value != ">>"
      case Input => true
      case Output => ts[k].value != "<"
  }

  ghost predicate AllClear(ts: seq<Token>) {
    forall k {:trigger Clear(ts, k)} :: 0 <= k < |ts| ==> Clear(ts, k)
  }

  /** The tokens of one stage: a word, and a word after every redirection. */
  ghost predicate StageOk(ts: seq<Token>) {
    && ts != [] && ts[0].kind == Word
    && (forall k {:trigger InStage(ts, k)} :: 0 <= k < |ts| ==> InStage(ts, k))
  }

  /** A word, or a redirection with a word after it. */
  predicate InStage(ts: seq<Token>, k: nat)
    requires k < |ts|
  {
    && (ts[k].kind == Word || ts[k].kind == Lt || ts[k].kind == Gt || ts[k].kind == GtGt)
    && (ts[k].kind != Word ==> k + 1 < |ts| && ts[k + 1].kind == Word)
  }

  // ---- the two passes ----

  datatype Pass<T> = Failed | Pass(rest: seq<string>, found: seq<T>)

  function Keep<T>(w: string, p: Pass<T>): Pass<T> {
    match p
    case Failed => Failed
    case Pass(rest, found) => Pass([w] + rest, found)
  }

  function Find<T>(f: T, p: Pass<T>): Pass<T> {
    match p
    case Failed => Failed
    case Pass(rest, found) => Pass(rest, [f] + found)
  }

  /** Where the first pass stops: at the end of its tokens and, in a command without
      bars, at whatever is spelled ';' or '&'. */
  predicate Over(ts: seq<Token>, single: bool) {
    ts == [] || (single && (ts[0].value == ";" || ts[0].value == "&"))
  }

  /** The first pass: '<' and the word after it out. */
  function InPass(ts: seq<Token>, single: bool): Pass<string> {
    if Over(ts, single) then Pass([], [])
    else if ts[0].value == "<" then
      if |ts| == 1 || ts[1].kind != Word then Failed else Find(ts[1].value, InPass(ts[2..], single))
    else Keep(ts[0].value, InPass(ts[1..], single))
  }

  /** How many words it stores before it ends or fails, and how many files. */
  function Kept(ts: seq<Token>, single: bool): nat {
    if Over(ts, single) then 0
    else if ts[0].value == "<" then if |ts| == 1 || ts[1].kind != Word then 0 else Kept(ts[2..], single)
    else 1 + Kept(ts[1..], single)
  }

  function Found(ts: seq<Token>, single: bool): nat {
    if Over(ts, single) then 0
    else if ts[0].value == "<" then if |ts| == 1 || ts[1].kind != Word then 0 else 1 + Found(ts[2..], single)
    else Found(ts[1..], single)
  }

  /** What it stores fits the arrays, with the NULL behind the words if it gets there. */
  predicate Room(ts: seq<Token>, single: bool) {
    Found(ts, single) <= ARGMAX && Kept(ts, single) <= if InPass(ts, single).Pass? then ARGMAX - 1 else ARGMAX
  }

  lemma {:induction false} StoredAll(ts: seq<Token>, single: bool)
    requires InPass(ts, single).Pass?
    ensures Kept(ts, single) == |InPass(ts, single).rest| && Found(ts, single) == |InPass(ts, single).found|
  {
    if !Over(ts, single) {
      StoredAll(if ts[0].value == "<" then ts[2..] else ts[1..], single);
    }
  }

  /** The second pass, over strings: '>' or '>>' and what follows out. */
  function OutPass(raw: seq<string>): Pass<Out> {
    if raw == [] then Pass([], [])
    else if raw[0] == ">" || raw[0] == ">>" then
      if |raw| == 1 then Failed else Find(Out(raw[1], raw[0] == ">>"), OutPass(raw[2..]))
    else Keep(raw[0], OutPass(raw[1..]))
  }

  /** What comes of a command or a part of one: it is refused, or a store goes past the
      end of an array, or it is split. */
  datatype Split<T> = Refused | TooLong | Split(parts: seq<T>)

  /** The second pass after a first one; there must be a command. */
  function Second(p: Pass<string>): Split<Stage> {
    match p
    case Failed => Refused
    case Pass(raw, ins) =>
      match OutPass(raw)
      case Failed => Refused
      case Pass(argv, outs) => if argv == [] then Refused else Split([Stage(argv, ins, outs)])
  }

  function ParseStage(ts: seq<Token>, single: bool): Split<Stage> {
    if Room(ts, single) then Second(InPass(ts, single)) else TooLong
  }

  lemma OutKeep(v: string, tail: seq<string>)
    requires v != ">" && v != ">>"
    ensures OutPass([v] + tail) == Keep(v, OutPass(tail))
  {
    assert ([v] + tail)[1..] == tail;
  }

  lemma OutFind(op: string, v: string, tail: seq<string>)
    requires op == ">" || op == ">>"
    ensures OutPass([op] + ([v] + tail)) == Find(Out(v, op == ">>"), OutPass(tail))
  {
    var raw := [op] + ([v] + tail);
    assert raw[1] == v && raw[2..] == tail;
  }

  /** The passes on a stage's tokens from i on: what is kept and found, by name. */
  ghost predicate Passes(ts: seq<Token>, i: nat, ins: seq<string>, args: seq<string>, outs: seq<Out>)
    requires i <= |ts|
  {
    var p := InPass(ts[i..], false);
    p.Pass? && p.found == ins && OutPass(p.rest) == Pass(args, outs)
  }

  lemma PassesWord(ts: seq<Token>, i: nat, ins: seq<string>, args: seq<string>, outs: seq<Out>)
    requires i < |ts| && ts[i].value != "<" && ts[i].value != ">" && ts[i].value != ">>"
    requires Passes(ts, i + 1, ins, args, outs)
    ensures Passes(ts, i, ins, [ts[i].value] + args, outs)
  {
    assert ts[i..][1..] == ts[i + 1..];
    OutKeep(ts[i].value, InPass(ts[i + 1..], false).rest);
  }

  lemma PassesInput(ts: seq<Token>, i: nat, ins: seq<string>, args: seq<string>, outs: seq<Out>)
    requires i + 1 < |ts| && ts[i].value == "<" && ts[i + 1].kind == Word && Passes(ts, i + 2, ins, args, outs)
    ensures Passes(ts, i, [ts[i + 1].value] + ins, args, outs)
  {
    assert ts[i..][2..] == ts[i + 2..];
  }

  lemma PassesOutput(ts: seq<Token>, i: nat, ins: seq<string>, args: seq<string>, outs: seq<Out>)
    requires i + 1 < |ts| && (ts[i].value == ">" || ts[i].value == ">>") && ts[i + 1].value != "<"
    requires Passes(ts, i + 2, ins, args, outs)
    ensures Passes(ts, i, ins, args, [Out(ts[i + 1].value, ts[i].value == ">>")] + outs)
  {
    var s, r := ts[i..], InPass(ts[i + 2..], false).rest;
    assert s[1..] == ts[i + 1..] && ts[i + 1..][1..] == ts[i + 2..];
    assert InPass(ts[i + 1..], false) == Keep(ts[i + 1].value, InPass(ts[i + 2..], false));
    OutFind(ts[i].value, ts[i + 1].value, r);
  }

  /** Both passes, from a place that no redirection reaches across. */
  lemma {:induction false} PassesFrom(ts: seq<Token>, i: nat)
    requires StageOk(ts) && Spelled(ts) && AllClear(ts) && i <= |ts| && (i > 0 ==> ts[i - 1].kind == Word)
    ensures Passes(ts, i, Pick(ts, i, Input), Pick(ts, i, Arg), Outs(ts, i))
    decreases |ts| - i
  {
    if i < |ts| {
      assert InStage(ts, i) && Clear(ts, i);
      if ts[i].kind == Word {
        PassesFrom(ts, i + 1);
        PassesWord(ts, i, Pick(ts, i + 1, Input), Pick(ts, i + 1, Arg), Outs(ts, i + 1));
        WordPicks(ts, i);
      } else {
        assert Clear(ts, i + 1);
        PassesFrom(ts, i + 2);
        if ts[i].kind == Lt {
          InputPicks(ts, i);
          PassesInput(ts, i, Pick(ts, i + 2, Input), Pick(ts, i + 2, Arg), Outs(ts, i + 2));
        } else {
          OutputPicks(ts, i);
          PassesOutput(ts, i, Pick(ts, i + 2, Input), Pick(ts, i + 2, Arg), Outs(ts, i + 2));
        }
      }
    }
  }

  lemma WordPicks(ts: seq<Token>, i: nat)
    requires i < |ts| && ts[i].kind == Word && (i > 0 ==> ts[i - 1].kind == Word)
    ensures Pick(ts, i, Arg) == [ts[i].value] + Pick(ts, i + 1, Arg) && Pick(ts, i, Input) == Pick(ts, i + 1, Input)
    ensures Outs(ts, i) == Outs(ts, i + 1)
  {
  }

  /** '<' and its word: one input, no argument, no output. */
  lemma InputPicks(ts: seq<Token>, i: nat)
    requires i + 1 < |ts| && ts[i].kind == Lt && ts[i + 1].kind == Word
    ensures Pick(ts, i, Arg) == Pick(ts, i + 2, Arg) && Pick(ts, i, Input) == [ts[i + 1].value] + Pick(ts, i + 2, Input)
    ensures Outs(ts, i) == Outs(ts, i + 2)
  {
    assert Pick(ts, i, Arg) == Pick(ts, i + 1, Arg) && Pick(ts, i, Input) == Pick(ts, i + 1, Input)
           && Outs(ts, i) == Outs(ts, i + 1);
  }

  /** '>' or '>>' and its word: one output, no argument, no input. */
  lemma OutputPicks(ts: seq<Token>, i: nat)
    requires i + 1 < |ts| && (ts[i].kind == Gt || ts[i].kind == GtGt) && ts[i + 1].kind == Word
    ensures Pick(ts, i, Arg) == Pick(ts, i + 2, Arg) && Pick(ts, i, Input) == Pick(ts, i + 2, Input)
    ensures Outs(ts, i) == [Out(ts[i + 1].value, ts[i].kind == GtGt)] + Outs(ts, i + 2)
  {
    assert Pick(ts, i, Arg) == Pick(ts, i + 1, Arg) && Pick(ts, i, Input) == Pick(ts, i + 1, Input)
           && Outs(ts, i) == Outs(ts, i + 1);
  }

  /** What the second pass keeps and names was there, and it keeps no '>' or '>>'. */
  lemma {:induction false} OutRest(raw: seq<string>)
    requires OutPass(raw).Pass?
    ensures forall w :: w in OutPass(raw).rest ==> w in raw && w != ">" && w != ">>"
    ensures forall f :: f in OutPass(raw).found ==> f.name in raw
  {
    if raw != [] {
      if raw[0] == ">" || raw[0] == ">>" {
        OutRest(raw[2..]);
      } else {
        OutRest(raw[1..]);
      }
    }
  }

  /** Every word with a role is picked for it. */
  lemma {:induction false} Picked(ts: seq<Token>, i: nat, k: nat)
    requires i <= k < |ts| && ts[k].kind == Word
    ensures RoleAt(ts, k) != Output ==> ts[k].value in Pick(ts, i, RoleAt(ts, k))
    ensures RoleAt(ts, k) == Output ==> exists f :: f in Outs(ts, i) && f.name == ts[k].value
    decreases k - i
  {
    if i == k {
      assert RoleAt(ts, k) == Output ==> Out(ts[k].value, ts[k - 1].kind == GtGt) in Outs(ts, i);
    } else {
      Picked(ts, i + 1, k);
      if RoleAt(ts, k) == Output {
        var f :| f in Outs(ts, i + 1) && f.name == ts[k].value;
        assert f in Outs(ts, i);
      }
    }
  }

  lemma {:induction false} OutSize(raw: seq<string>)
    requires OutPass(raw).Pass?
    ensures |raw| == |OutPass(raw).rest| + 2 * |OutPass(raw).found|
  {
    if raw != [] {
      OutSize(if raw[0] == ">" || raw[0] == ">>" then raw[2..] else raw[1..]);
    }
  }

  /** A first pass that leaves some spellings out, then the second. */
  lemma SecondSays(ts: seq<Token>, p: Pass<string>, k: nat)
    requires Second(p) == Split([StageOf(ts)]) && k < |ts| && ts[k].kind == Word
    ensures RoleAt(ts, k) != Input ==> ts[k].value in p.rest
    ensures RoleAt(ts, k) == Arg ==> ts[k].value != ">" && ts[k].value != ">>"
  {
    assert [StageOf(ts)][0] == StageOf(ts);
    Picked(ts, 0, k);
    OutRest(p.rest);
  }

  lemma {:induction false} InRest(ts: seq<Token>, single: bool)
    requires InPass(ts, single).Pass?
    ensures "<" !in InPass(ts, single).rest
    ensures single ==> ";" !in InPass(ts, single).rest && "&" !in InPass(ts, single).rest
  {
    if !Over(ts, single) {
      InRest(if ts[0].value == "<" then ts[2..] else ts[1..], single);
    }
  }

  lemma HasCommand(ts: seq<Token>)
    requires StageOk(ts)
    ensures StageOf(ts).argv == [ts[0].value] + Pick(ts, 1, Arg)
  {
    WordPicks(ts, 0);
  }

  /** A stage's words fit the shell's arrays: its arguments, with operator and target of
      each output file, and a NULL; and its input files. */
  predicate Fits(ts: seq<Token>) {
    |StageOf(ts).argv| + 2 * |StageOf(ts).outputs| < ARGMAX && |StageOf(ts).inputs| <= ARGMAX
  }

  /** If both passes find what the tokens say, they stay within the arrays exactly when
      the stage fits them. */
  lemma RoomIsFit(ts: seq<Token>, all: seq<Token>, single: bool)
    requires InPass(all, single).Pass? && Second(InPass(all, single)) == Split([StageOf(ts)])
    ensures Room(all, single) <==> Fits(ts)
  {
    assert [StageOf(ts)][0] == StageOf(ts);
    StoredAll(all, single);
    OutSize(InPass(all, single).rest);
  }

  /** A stage of an accepted line comes apart as its tokens say exactly when no word
      of it is taken for a redirection and it fits. */
  lemma StageExact(ts: seq<Token>)
    requires StageOk(ts) && Spelled(ts)
    ensures ParseStage(ts, false) == Split([StageOf(ts)]) <==> AllClear(ts) && Fits(ts)
    ensures AllClear(ts) ==> (ParseStage(ts, false) == TooLong <==> !Fits(ts))
  {
    HasCommand(ts);
    if AllClear(ts) {
      PassesFrom(ts, 0);
      assert ts[0..] == ts;
      RoomIsFit(ts, ts, false);
    }
    if ParseStage(ts, false) == Split([StageOf(ts)]) {
      InRest(ts, false);
      RoomIsFit(ts, ts, false);
      forall k | 0 <= k < |ts|
        ensures Clear(ts, k)
      {
        if ts[k].kind == Word {
          SecondSays(ts, InPass(ts, false), k);
        }
      }
    }
  }

  /** No word of a command ends it early: only an input file may be spelled ';' or '&'. */
  ghost predicate Unbroken(ts: seq<Token>) {
    forall k {:trigger RoleAt(ts, k)} :: 0 <= k < |ts| && ts[k].kind == Word && RoleAt(ts, k) != Input ==>
      ts[k].value != ";" && ts[k].value != "&"
  }

  /** The two forms of the first pass agree on a token that both keep. */
  lemma BothKeep(t: Token, a: seq<Token>, tail: seq<Token>)
    requires t.value != "<" && t.value != ";" && t.value != "&" && InPass(a + tail, true) == InPass(a, false)
    ensures InPass([t] + a + tail, true) == InPass([t] + a, false)
  {
    assert ([t] + a + tail)[1..] == a + tail && ([t] + a)[1..] == a;
  }

  /** And on an input and its file. */
  lemma BothFind(t: Token, u: Token, a: seq<Token>, tail: seq<Token>)
    requires t.value == "<" && u.kind == Word && InPass(a + tail, true) == InPass(a, false)
    ensures InPass([t, u] + a + tail, true) == InPass([t, u] + a, false)
  {
    assert ([t, u] + a + tail)[2..] == a + tail && ([t, u] + a)[2..] == a;
  }

  /** Then the first pass over the rest of the line is the first pass over the command. */
  lemma {:induction false} SingleIsPass(ts: seq<Token>, i: nat, tail: seq<Token>)
    requires StageOk(ts) && Spelled(ts) && AllClear(ts) && Unbroken(ts) && i <= |ts|
             && (i > 0 ==> ts[i - 1].kind == Word)
    requires tail != [] ==> tail[0].value == ";" || tail[0].value == "&"
    ensures InPass(ts[i..] + tail, true) == InPass(ts[i..], false)
    decreases |ts| - i
  {
    if i == |ts| {
      assert ts[i..] + tail == tail;
    } else {
      assert InStage(ts, i) && Clear(ts, i);
      if ts[i].kind == Word {
        assert RoleAt(ts, i) == Arg && ts[i..] == [ts[i]] + ts[i + 1..];
        SingleIsPass(ts, i + 1, tail);
        BothKeep(ts[i], ts[i + 1..], tail);
      } else {
        SingleIsPass(ts, i + 2, tail);
        BothRedirect(ts, i, tail);
      }
    }
  }

  lemma BothRedirect(ts: seq<Token>, i: nat, tail: seq<Token>)
    requires i < |ts| && InStage(ts, i) && ts[i].kind != Word && Spelled(ts) && AllClear(ts) && Unbroken(ts)
    requires InPass(ts[i + 2..] + tail, true) == InPass(ts[i + 2..], false)
    ensures InPass(ts[i..] + tail, true) == InPass(ts[i..], false)
  {
    assert Clear(ts, i + 1) && RoleAt(ts, i + 1) != Arg;
    if ts[i].kind == Lt {
      assert ts[i..] == [ts[i], ts[i + 1]] + ts[i + 2..];
      BothFind(ts[i], ts[i + 1], ts[i + 2..], tail);
    } else {
      assert ts[i..] == [ts[i]] + ts[i + 1..] && ts[i + 1..] == [ts[i + 1]] + ts[i + 2..];
      BothKeep(ts[i + 1], ts[i + 2..], tail);
      BothKeep(ts[i], ts[i + 1..], tail);
    }
  }

  /** A command without bars comes apart as its tokens say exactly when no word of it
      is taken for a redirection or for its end, and it fits. */
  lemma SingleExact(ts: seq<Token>, tail: seq<Token>)
    requires StageOk(ts) && Spelled(ts) && (tail != [] ==> tail[0].value == ";" || tail[0].value == "&")
    ensures ParseStage(ts + tail, true) == Split([StageOf(ts)]) <==> AllClear(ts) && Unbroken(ts) && Fits(ts)
    ensures AllClear(ts) && Unbroken(ts) ==> (ParseStage(ts + tail, true) == TooLong <==> !Fits(ts))
  {
    var all := ts + tail;
    HasCommand(ts);
    if AllClear(ts) && Unbroken(ts) {
      SingleIsPass(ts, 0, tail);
      PassesFrom(ts, 0);
      assert ts[0..] == ts;
      RoomIsFit(ts, all, true);
    }
    if ParseStage(all, true) == Split([StageOf(ts)]) {
      InRest(all, true);
      RoomIsFit(ts, all, true);
      forall k | 0 <= k < |ts|
        ensures Clear(ts, k)
                && (ts[k].kind == Word && RoleAt(ts, k) != Input ==> ts[k].value != ";" && ts[k].value != "&")
      {
        if ts[k].kind == Word {
          SecondSays(ts, InPass(all, true), k);
        }
      }
    }
  }

  // ---- the parsers of command.c ----

  function Glue<T>(w: seq<string>, f: seq<T>, p: Pass<T>): Pass<T> {
    match p
    case Failed => Failed
    case Pass(rest, found) => Pass(w + rest, f + found)
  }

  lemma GlueKeep<T>(w: seq<string>, f: seq<T>, v: string, p: Pass<T>)
    ensures Glue(w, f, Keep(v, p)) == Glue(w + [v], f, p)
  {
    if p.Pass? {
      assert w + ([v] + p.rest) == w + [v] + p.rest;
    }
  }

  lemma GlueFind<T>(w: seq<string>, f: seq<T>, x: T, p: Pass<T>)
    ensures Glue(w, f, Find(x, p)) == Glue(w, f + [x], p)
  {
    if p.Pass? {
      assert f + ([x] + p.found) == f + [x] + p.found;
    }
  }

  /** parse_output_redirection's cases, at raw[i]. */
  lemma OutAt(raw: seq<string>, i: nat, whole: Pass<Out>, w: seq<string>, f: seq<Out>)
    requires i < |raw| && whole == Glue(w, f, OutPass(raw[i..]))
    ensures raw[i] != ">" && raw[i] != ">>" ==> whole == Glue(w + [raw[i]], f, OutPass(raw[i + 1..]))
    ensures (raw[i] == ">" || raw[i] == ">>") && i + 1 == |raw| ==> whole == Failed
    ensures (raw[i] == ">" || raw[i] == ">>") && i + 1 < |raw| ==>
              whole == Glue(w, f + [Out(raw[i + 1], raw[i] == ">>")], OutPass(raw[i + 2..]))
  {
    var s := raw[i..];
    assert s[1..] == raw[i + 1..];
    if raw[i] != ">" && raw[i] != ">>" {
      GlueKeep(w, f, raw[i], OutPass(raw[i + 1..]));
    } else if i + 1 < |raw| {
      assert s[1] == raw[i + 1] && s[2..] == raw[i + 2..];
      GlueFind(w, f, Out(raw[i + 1], raw[i] == ">>"), OutPass(raw[i + 2..]));
    }
  }

  /** a[n++] = x. */
  method Push<T>(a: array<T>, n: nat, x: T) returns (next: nat)
    requires n < a.Length
    modifies a
    ensures next == n + 1 && a[..next] == old(a[..n]) + [x] && forall k :: 0 <= k < a.Length && k != n ==>
              a[k] == old(a[k])
  {
    a[n] := x;
    next := n + 1;
  }

  /** parse_output_redirection: argv is compacted in place. */
  method ParseOutputRedirection(argv: array<string>, argc: nat, files: array<Out>)
    returns (ok: bool, n: nat, count: nat)
    requires argc < argv.Length == files.Length == ARGMAX
    modifies argv, files
    ensures n <= argc && count <= argc
    ensures OutPass(old(argv[..argc])) == if ok then Pass(argv[..n], files[..count]) else Failed
  {
    ghost var raw := argv[..argc];
    ghost var whole := OutPass(raw);
    var i := 0;
    ok, n, count := true, 0, 0;
    assert raw[0..] == raw && argv[..n] == [] && files[..count] == [];
    while i < argc
      invariant n <= i <= argc && count <= i && forall k :: i <= k < argc ==> argv[k] == raw[k]
      invariant whole == Glue(argv[..n], files[..count], OutPass(raw[i..]))
      decreases argc - i
    {
      OutAt(raw, i, whole, argv[..n], files[..count]);
      if (argv[i] == ">" || argv[i] == ">>") && i + 1 >= argc {
        return false, n, count;
      }
      i, n, count := OutNext(argv, i, n, files, count, raw, whole);
    }
    assert raw[i..] == [];
  }

  /** One round of it that does not fail. */
  method OutNext(argv: array<string>, at: nat, n0: nat, files: array<Out>, count0: nat, ghost raw: seq<string>,
                 ghost whole: Pass<Out>)
    returns (i: nat, n: nat, count: nat)
    requires n0 <= at < |raw| < argv.Length == files.Length && count0 <= at
             && (forall k :: at <= k < |raw| ==> argv[k] == raw[k])
    requires whole == Glue(argv[..n0], files[..count0], OutPass(raw[at..]))
             && (raw[at] == ">" || raw[at] == ">>" ==> at + 1 < |raw|)
    modifies argv, files
    ensures at < i <= |raw| && n <= i && count <= i && forall k :: i <= k < |raw| ==> argv[k] == raw[k]
    ensures whole == Glue(argv[..n], files[..count], OutPass(raw[i..]))
  {
    OutAt(raw, at, whole, argv[..n0], files[..count0]);
    if argv[at] == ">" || argv[at] == ">>" {
      n := n0;
      count := Push(files, count0, Out(argv[at + 1], argv[at] == ">>"));
      i := at + 2;
    } else {
      count := count0;
      n := Push(argv, n0, argv[at]);
      i := at + 1;
    }
  }

  lemma InAt(ts: seq<Token>, i: nat, single: bool, whole: Pass<string>, w: seq<string>, f: seq<string>)
    requires i < |ts| && !Over(ts[i..], single) && whole == Glue(w, f, InPass(ts[i..], single))
    ensures ts[i].value != "<" ==>
              whole == Glue(w + [ts[i].value], f, InPass(ts[i + 1..], single))
              && Kept(ts[i..], single) == 1 + Kept(ts[i + 1..], single)
              && Found(ts[i..], single) == Found(ts[i + 1..], single)
    ensures ts[i].value == "<" && (i + 1 == |ts| || ts[i + 1].kind != Word) ==>
              whole == Failed && Kept(ts[i..], single) == Found(ts[i..], single) == 0
    ensures ts[i].value == "<" && i + 1 < |ts| && ts[i + 1].kind == Word ==>
              whole == Glue(w, f + [ts[i + 1].value], InPass(ts[i + 2..], single))
              && Kept(ts[i..], single) == Kept(ts[i + 2..], single)
              && Found(ts[i..], single) == 1 + Found(ts[i + 2..], single)
  {
    var s := ts[i..];
    assert s[0] == ts[i] && s[1..] == ts[i + 1..];
    if ts[i].value != "<" {
      GlueKeep(w, f, ts[i].value, InPass(ts[i + 1..], single));
    } else if i + 1 < |ts| {
      assert s[1] == ts[i + 1] && s[2..] == ts[i + 2..];
      GlueFind(w, f, ts[i + 1].value, InPass(ts[i + 2..], single));
    }
  }

  /** How a pass ends. */
  datatype Status = Fine | Malformed | Overrun

  /** Where the first pass stands, at token i with argc words and count files stored. */
  ghost predicate Passing(ts: seq<Token>, single: bool, i: nat, w: seq<string>, f: seq<string>) {
    && i <= |ts| && InPass(ts, single) == Glue(w, f, InPass(ts[i..], single))
    && Kept(ts, single) == |w| + Kept(ts[i..], single) && Found(ts, single) == |f| + Found(ts[i..], single)
  }

  /** The first pass, into two arrays: the loop of parse_pipeline_stage, and
      parse_input_redirect. */
  method InputPass(ts: seq<Token>, single: bool, argv: array<string>, files: array<string>)
    returns (st: Status, argc: nat, count: nat)
    requires argv.Length == files.Length == ARGMAX && argv != files
    modifies argv, files
    ensures st == Overrun <==> !Room(ts, single)
    ensures st == Malformed ==> InPass(ts, single) == Failed
    ensures st == Fine ==> argc < ARGMAX && count <= ARGMAX && InPass(ts, single) == Pass(argv[..argc], files[..count])
  {
    var i := 0;
    argc, count := 0, 0;
    assert ts[0..] == ts && argv[..argc] == [] && files[..count] == [];
    while !Over(ts[i..], single)
      invariant argc <= ARGMAX && count <= ARGMAX && Passing(ts, single, i, argv[..argc], files[..count])
      decreases |ts| - i
    {
      InAt(ts, i, single, InPass(ts, single), argv[..argc], files[..count]);
      if ts[i].value == "<" {
        if i + 1 == |ts| || ts[i + 1].kind != Word {
          return Malformed, argc, count;
        }
        if count == ARGMAX {
          return Overrun, argc, count;
        }
        count := Push(files, count, ts[i + 1].value);
        i := i + 2;
      } else {
        if argc == ARGMAX {
          return Overrun, argc, count;
        }
        argc := Push(argv, argc, ts[i].value);
        i := i + 1;
      }
    }
    st := if argc == ARGMAX then Overrun else Fine;
  }

  /** parse_pipeline_stage on the tokens between two bars or, for a single command, what
      exec_command and exec_background_command do with the tokens from its first on. */
  method ParseTokens(ts: seq<Token>, single: bool) returns (r: Split<Stage>)
    ensures r == ParseStage(ts, single)
  {
    var raw, inputs, files := new string[ARGMAX], new string[ARGMAX], new Out[ARGMAX];
    var st, argc, inCount := InputPass(ts, single, raw, inputs);
    if st == Overrun {
      return TooLong;
    }
    if st == Malformed {
      return Refused;
    }
    var ok, n, count := ParseOutputRedirection(raw, argc, files);
    r := if ok && n > 0 then Split([Stage(raw[..n], inputs[..inCount], files[..count])]) else Refused;
  }

  // ---- the whole line ----

  /** Where the command at i ends: at ';', '&' or the end of the line. */
  function EndOf(ts: seq<Token>, i: nat): (e: nat)
    requires i <= |ts|
    ensures i <= e <= |ts| && (e < |ts| ==> ts[e].kind == Semi || ts[e].kind == Amp)
    ensures forall k {:trigger ts[k]} :: i <= k < e ==> ts[k].kind != Semi && ts[k].kind != Amp
    decreases |ts| - i
  {
    if i == |ts| || ts[i].kind == Semi || ts[i].kind == Amp then i else EndOf(ts, i + 1)
  }

  /** The stages of the command that ends at hi: lo is where the current one begins. */
  function StagesOf(ts: seq<Token>, lo: nat, i: nat, hi: nat): seq<Stage>
    requires lo <= i <= hi <= |ts|
    decreases hi - i
  {
    if i == hi then [StageOf(ts[lo..hi])]
    else if ts[i].kind == Pipe then [StageOf(ts[lo..i])] + StagesOf(ts, i + 1, i + 1, hi)
    else StagesOf(ts, lo, i + 1, hi)
  }

  /** Every token list of an accepted line between bars and separators is a stage. */
  lemma StageBetween(ts: seq<Token>, lo: nat, i: nat)
    requires lo < i <= |ts| && ts[lo].kind == Word && FollowedFrom(ts, lo)
    requires forall k {:trigger ts[k]} :: lo <= k < i ==> ts[k].kind != Pipe && ts[k].kind != Semi && ts[k].kind != Amp
    requires i < |ts| ==> ts[i].kind != Word
    ensures StageOk(ts[lo..i])
  {
    var s := ts[lo..i];
    forall k | 0 <= k < |s|
      ensures InStage(s, k)
    {
      assert s[k] == ts[lo + k] && Followed(ts, lo + k);
      if k + 1 < |s| {
        assert s[k + 1] == ts[lo + k + 1];
      }
    }
  }

  predicate HasBar(ts: seq<Token>, lo: nat, hi: nat)
    requires lo <= hi <= |ts|
  {
    exists k :: lo <= k < hi && ts[k].kind == Pipe
  }

  /** has_pipeline: is there a bar before the command ends? */
  method HasPipeline(ts: seq<Token>, start: nat) returns (r: bool)
    requires start <= |ts|
    ensures r <==> HasBar(ts, start, EndOf(ts, start))
  {
    var i := start;
    while i < |ts| && ts[i].kind != Semi && ts[i].kind != Amp
      invariant start <= i <= |ts| && EndOf(ts, i) == EndOf(ts, start) && forall k :: start <= k < i ==>
                  ts[k].kind != Pipe
    {
      if ts[i].kind == Pipe {
        return true;
      }
      i := i + 1;
    }
    return false;
  }

  lemma {:induction false} LexSpells(line: string)
    ensures Lex(line).Tokens? ==> Spelled(Lex(line).tokens)
    decreases |line|
  {
    if line != [] {
      if IsSpace(line[0]) {
        LexSpells(line[1..]);
      } else if IsSpecial(line[0]) {
        LexSpells(line[|Spelling(Operator(line))|..]);
      } else if WordOf(line).Piece? {
        LexSpells(WordOf(line).rest);
      }
    }
  }

  /** A command of an accepted line begins at lo. */
  ghost predicate Good(ts: seq<Token>, lo: nat) {
    lo < |ts| && ts[lo].kind == Word && FollowedFrom(ts, lo)
  }

  lemma GoodAfter(ts: seq<Token>, lo: nat, i: nat)
    requires Good(ts, lo) && lo <= i < |ts| && ts[i].kind != Word && !(ts[i].kind == Amp && i + 1 == |ts|)
    ensures Good(ts, i + 1)
  {
    assert Followed(ts, i);
  }

  function Bars(ts: seq<Token>, i: nat, hi: nat): nat
    requires i <= hi <= |ts|
    decreases hi - i
  {
    if i == hi then 0 else (if ts[i].kind == Pipe then 1 else 0) + Bars(ts, i + 1, hi)
  }

  function Before<T>(parts: seq<T>, s: Split<T>): Split<T> {
    match s
    case Refused => Refused
    case TooLong => TooLong
    case Split(more) => Split(parts + more)
  }

  /** One part after another; the first problem is the one that shows. */
  function Join<T>(a: Split<T>, b: Split<T>): Split<T> {
    if a.Split? then Before(a.parts, b) else a
  }

  /** The stages as parse_pipeline makes them out. */
  function ParseStages(ts: seq<Token>, lo: nat, i: nat, hi: nat): Split<Stage>
    requires lo <= i <= hi <= |ts|
    decreases hi - i
  {
    if i == hi then ParseStage(ts[lo..hi], false)
    else if ts[i].kind == Pipe then Join(ParseStage(ts[lo..i], false), ParseStages(ts, i + 1, i + 1, hi))
    else ParseStages(ts, lo, i + 1, hi)
  }

  lemma OneStage(ts: seq<Token>, single: bool)
    ensures ParseStage(ts, single).Split? ==> |ParseStage(ts, single).parts| == 1
  {
  }

  lemma {:induction false} ParsedCount(ts: seq<Token>, lo: nat, i: nat, hi: nat)
    requires lo <= i <= hi <= |ts|
    ensures ParseStages(ts, lo, i, hi).Split? ==> |ParseStages(ts, lo, i, hi).parts| == 1 + Bars(ts, i, hi)
    decreases hi - i
  {
    OneStage(ts[lo..i], false);
    if i < hi {
      ParsedCount(ts, if ts[i].kind == Pipe then i + 1 else lo, i + 1, hi);
    }
  }

  /** No word of any stage is taken for a redirection. */
  ghost predicate StagesClear(ts: seq<Token>, lo: nat, i: nat, hi: nat)
    requires lo <= i <= hi <= |ts|
    decreases hi - i
  {
    if i == hi then AllClear(ts[lo..hi])
    else if ts[i].kind == Pipe then AllClear(ts[lo..i]) && StagesClear(ts, i + 1, i + 1, hi)
    else StagesClear(ts, lo, i + 1, hi)
  }

  /** Every stage fits. */
  predicate StagesFit(ts: seq<Token>, lo: nat, i: nat, hi: nat)
    requires lo <= i <= hi <= |ts|
    decreases hi - i
  {
    if i == hi then Fits(ts[lo..hi])
    else if ts[i].kind == Pipe then Fits(ts[lo..i]) && StagesFit(ts, i + 1, i + 1, hi)
    else StagesFit(ts, lo, i + 1, hi)
  }

  lemma {:induction false} StagesAtBar(ts: seq<Token>, lo: nat, i: nat, hi: nat)
    requires lo <= i < hi <= |ts| && ts[i].kind == Pipe && StageOk(ts[lo..i]) && Spelled(ts[lo..i])
    requires ParseStages(ts, i + 1, i + 1, hi) == Split(StagesOf(ts, i + 1, i + 1, hi))
             <==> StagesClear(ts, i + 1, i + 1, hi) && StagesFit(ts, i + 1, i + 1, hi)
    requires StagesClear(ts, i + 1, i + 1, hi) ==>
               (ParseStages(ts, i + 1, i + 1, hi) == TooLong <==> !StagesFit(ts, i + 1, i + 1, hi))
    ensures ParseStages(ts, lo, i, hi) == Split(StagesOf(ts, lo, i, hi))
            <==> StagesClear(ts, lo, i, hi) && StagesFit(ts, lo, i, hi)
    ensures StagesClear(ts, lo, i, hi) ==> (ParseStages(ts, lo, i, hi) == TooLong <==> !StagesFit(ts, lo, i, hi))
  {
    StageExact(ts[lo..i]);
    OneStage(ts[lo..i], false);
    FirstAndRest(ParseStage(ts[lo..i], false), ParseStages(ts, i + 1, i + 1, hi), StageOf(ts[lo..i]),
                 StagesOf(ts, i + 1, i + 1, hi));
  }

  lemma {:induction false} StagesExact(ts: seq<Token>, lo: nat, i: nat, hi: nat)
    requires Good(ts, lo) && Spelled(ts) && lo <= i <= hi <= |ts|
    requires hi < |ts| ==> ts[hi].kind == Semi || ts[hi].kind == Amp
    requires forall k {:trigger ts[k]} :: lo <= k < hi ==> ts[k].kind != Semi && ts[k].kind != Amp
    requires forall k {:trigger ts[k]} :: lo <= k < i ==> ts[k].kind != Pipe
    ensures ParseStages(ts, lo, i, hi) == Split(StagesOf(ts, lo, i, hi))
            <==> StagesClear(ts, lo, i, hi) && StagesFit(ts, lo, i, hi)
    ensures StagesClear(ts, lo, i, hi) ==> (ParseStages(ts, lo, i, hi) == TooLong <==> !StagesFit(ts, lo, i, hi))
    decreases hi - i
  {
    if i == hi {
      StageBetween(ts, lo, hi);
      StageExact(ts[lo..hi]);
    } else if ts[i].kind == Pipe {
      StageBetween(ts, lo, i);
      GoodAfter(ts, lo, i);
      StagesExact(ts, i + 1, i + 1, hi);
      StagesAtBar(ts, lo, i, hi);
    } else {
      StagesExact(ts, lo, i + 1, hi);
    }
  }

  lemma FirstAndRest(p: Split<Stage>, s: Split<Stage>, first: Stage, rest: seq<Stage>)
    requires p.Split? ==> |p.parts| == 1
    ensures Join(p, s) == Split([first] + rest) <==> p == Split([first]) && s == Split(rest)
  {
    if p.Split? && s.Split? && p.parts + s.parts == [first] + rest {
      assert (p.parts + s.parts)[..1] == p.parts && (p.parts + s.parts)[1..] == s.parts;
      assert ([first] + rest)[..1] == [first] && ([first] + rest)[1..] == rest;
    }
  }

  lemma BeforeJoin<T>(done: seq<T>, p: Split<T>, s: Split<T>)
    ensures Before(done, Join(p, s)) == if p.Split? then Before(done + p.parts, s) else p
  {
    if p.Split? && s.Split? {
      Associate(done, p.parts, s.parts);
    }
  }

  /** At a bar: the stage before it, then what follows. */
  lemma AtBar(stages: seq<Stage>, ts: seq<Token>, lo: nat, i: nat, e: nat, p: Split<Stage>)
    requires lo <= i < e <= |ts| && ts[i].kind == Pipe && p == ParseStage(ts[lo..i], false)
    ensures Before(stages, ParseStages(ts, lo, i, e)) ==
            if p.Split? then Before(stages + p.parts, ParseStages(ts, i + 1, i + 1, e)) else p
  {
    BeforeJoin(stages, p, ParseStages(ts, i + 1, i + 1, e));
  }

  /** parse_pipeline from token start on: its stages, as many as announced. */
  method ParsePipeline(ts: seq<Token>, start: nat) returns (r: Split<Stage>, count: nat)
    requires start <= |ts|
    ensures r == ParseStages(ts, start, start, EndOf(ts, start))
    ensures r.Split? ==> count == |r.parts|
  {
    count := CountStages(ts, start);
    ghost var e := EndOf(ts, start);
    ParsedCount(ts, start, start, e);
    ghost var whole := ParseStages(ts, start, start, e);
    var lo, cursor := start, start;
    var stages := [];
    assert whole.Split? ==> stages + whole.parts == whole.parts;
    while cursor < |ts| && ts[cursor].kind != Semi && ts[cursor].kind != Amp
      invariant start <= lo <= cursor <= e && EndOf(ts, cursor) == e
      invariant whole == Before(stages, ParseStages(ts, lo, cursor, e))
    {
      if ts[cursor].kind == Pipe {
        var p := ParseTokens(ts[lo..cursor], false);
        AtBar(stages, ts, lo, cursor, e, p);
        if !p.Split? {
          return p, count;
        }
        stages := stages + p.parts;
        lo := cursor + 1;
      }
      cursor := cursor + 1;
    }
    var p := ParseTokens(ts[lo..cursor], false);
    r := if p.Split? then Split(stages + p.parts) else p;
  }

  method CountStages(ts: seq<Token>, start: nat) returns (count: nat)
    requires start <= |ts|
    ensures count == 1 + Bars(ts, start, EndOf(ts, start))
  {
    count := 1;
    var cursor := start;
    while cursor < |ts| && ts[cursor].kind != Semi && ts[cursor].kind != Amp
      invariant start <= cursor <= EndOf(ts, start) == EndOf(ts, cursor)
      invariant count + Bars(ts, cursor, EndOf(ts, start)) == 1 + Bars(ts, start, EndOf(ts, start))
    {
      if ts[cursor].kind == Pipe {
        count := count + 1;
      }
      cursor := cursor + 1;
    }
  }

  lemma {:induction false} NoBars(ts: seq<Token>, lo: nat, i: nat, hi: nat)
    requires lo <= i <= hi <= |ts| && forall k {:trigger ts[k]} :: i <= k < hi ==> ts[k].kind != Pipe
    ensures StagesOf(ts, lo, i, hi) == [StageOf(ts[lo..hi])]
    ensures StagesClear(ts, lo, i, hi) <==> AllClear(ts[lo..hi])
    ensures StagesFit(ts, lo, i, hi) <==> Fits(ts[lo..hi])
    decreases hi - i
  {
    if i < hi {
      NoBars(ts, lo, i + 1, hi);
    }
  }

  /** One command, as the shell makes it out. */
  function CommandAt(ts: seq<Token>, lo: nat): Split<Stage>
    requires lo <= |ts|
  {
    if HasBar(ts, lo, EndOf(ts, lo)) then ParseStages(ts, lo, lo, EndOf(ts, lo)) else ParseStage(ts[lo..], true)
  }

  /** One command, with bars or without. */
  method ParseCommand(ts: seq<Token>, start: nat) returns (r: Split<Stage>)
    requires start <= |ts|
    ensures r == CommandAt(ts, start)
  {
    var bars := HasPipeline(ts, start);
    if bars {
      var count;
      r, count := ParsePipeline(ts, start);
    } else {
      r := ParseTokens(ts[start..], true);
    }
  }

  /** No word of the command is taken for a redirection or, without bars, for its end. */
  ghost predicate CommandClear(ts: seq<Token>, lo: nat)
    requires lo <= |ts|
  {
    var e := EndOf(ts, lo);
    StagesClear(ts, lo, lo, e) && (HasBar(ts, lo, e) || Unbroken(ts[lo..e]))
  }

  lemma CommandExact(ts: seq<Token>, lo: nat)
    requires Good(ts, lo) && Spelled(ts)
    ensures var e := EndOf(ts, lo);
            && (CommandAt(ts, lo) == Split(StagesOf(ts, lo, lo, e)) <==>
                  CommandClear(ts, lo) && StagesFit(ts, lo, lo, e))
            && (CommandClear(ts, lo) ==> (CommandAt(ts, lo) == TooLong <==> !StagesFit(ts, lo, lo, e)))
  {
    var e := EndOf(ts, lo);
    if HasBar(ts, lo, e) {
      StagesExact(ts, lo, lo, e);
    } else {
      NoBars(ts, lo, lo, e);
      StageBetween(ts, lo, e);
      assert ts[lo..] == ts[lo..e] + ts[e..];
      SingleExact(ts[lo..e], ts[e..]);
    }
  }

  /** Where the next command begins. */
  function After(ts: seq<Token>, lo: nat): (next: nat)
    requires lo < |ts|
    ensures lo < next <= |ts|
  {
    if EndOf(ts, lo) < |ts| then EndOf(ts, lo) + 1 else |ts|
  }

  function JobAt(ts: seq<Token>, lo: nat, stages: seq<Stage>): Job
    requires lo <= |ts|
  {
    Job(EndOf(ts, lo) < |ts| && ts[EndOf(ts, lo)].kind == Amp, stages)
  }

  /** The jobs of a line, from a command's beginning on. */
  function JobsOf(ts: seq<Token>, lo: nat): seq<Job>
    requires lo <= |ts|
    decreases |ts| - lo
  {
    if lo == |ts| then [] else [JobAt(ts, lo, StagesOf(ts, lo, lo, EndOf(ts, lo)))] + JobsOf(ts, After(ts, lo))
  }

  /** What comes of a line: a store past the end of an array, or jobs, and whether no
      command was refused. */
  datatype Outcome = Overran | Ran(ok: bool, jobs: seq<Job>)

  function Following(ok: bool, jobs: seq<Job>, l: Outcome): Outcome {
    match l
    case Overran => Overran
    case Ran(o, js) => Ran(ok && o, jobs + js)
  }

  /** The jobs as sequence_command makes them out; a refused one is passed over. */
  function Jobs(ts: seq<Token>, lo: nat): Outcome
    requires lo <= |ts|
    decreases |ts| - lo
  {
    if lo == |ts| then Ran(true, [])
    else
      match CommandAt(ts, lo)
      case TooLong => Overran
      case Refused => Following(false, [], Jobs(ts, After(ts, lo)))
      case Split(stages) => Following(true, [JobAt(ts, lo, stages)], Jobs(ts, After(ts, lo)))
  }

  lemma FollowingTwice(a: bool, js: seq<Job>, b: bool, ks: seq<Job>, l: Outcome)
    ensures Following(a, js, Following(b, ks, l)) == Following(a && b, js + ks, l)
  {
    if l.Ran? {
      Associate(js, ks, l.jobs);
    }
  }

  /** The inner loop of sequence_command. */
  method SkipToEnd(ts: seq<Token>, start: nat) returns (current: nat)
    requires start <= |ts|
    ensures current == EndOf(ts, start)
  {
    current := start;
    while current < |ts| && ts[current].kind != Semi && ts[current].kind != Amp
      invariant start <= current <= |ts| && EndOf(ts, current) == EndOf(ts, start)
    {
      current := current + 1;
    }
  }

  /** The line from a command's beginning on, in terms of what follows the command. */
  lemma NextJob(ok: bool, jobs: seq<Job>, ts: seq<Token>, lo: nat, r: Split<Stage>, job: seq<Job>, next: nat)
    requires lo < |ts| && r == CommandAt(ts, lo) && next == After(ts, lo)
    requires job == if r.Split? then [JobAt(ts, lo, r.parts)] else []
    ensures r.TooLong? ==> Jobs(ts, lo) == Overran
    ensures !r.TooLong? ==>
              Following(ok, jobs, Jobs(ts, lo)) == Following(ok && r.Split?, jobs + job, Jobs(ts, next))
  {
    FollowingTwice(ok, jobs, r.Split?, job, Jobs(ts, next));
  }

  /** One round of sequence_command. */
  method SequenceNext(ts: seq<Token>, lo: nat, ok: bool, jobs: seq<Job>)
    returns (over: bool, ok': bool, jobs': seq<Job>, next: nat)
    requires lo < |ts|
    ensures lo < next <= |ts|
    ensures over ==> Jobs(ts, lo) == Overran
    ensures !over ==> Following(ok, jobs, Jobs(ts, lo)) == Following(ok', jobs', Jobs(ts, next))
  {
    var e := SkipToEnd(ts, lo);
    var r := ParseCommand(ts, lo);
    var job := if r.Split? then [Job(e < |ts| && ts[e].kind == Amp, r.parts)] else [];
    next := if e == |ts| then e else e + 1;
    NextJob(ok, jobs, ts, lo, r, job, next);
    over, ok', jobs' := r.TooLong?, ok && r.Split?, jobs + job;
  }

  /** sequence_command, up to running the jobs. */
  method SequenceCommand(ts: seq<Token>) returns (r: Outcome)
    ensures r == Jobs(ts, 0)
  {
    var lo, ok, jobs := 0, true, [];
    ghost var whole := Jobs(ts, 0);
    assert whole.Ran? ==> jobs + whole.jobs == whole.jobs;
    while lo < |ts|
      invariant 0 <= lo <= |ts| && whole == Following(ok, jobs, Jobs(ts, lo))
      decreases |ts| - lo
    {
      var over;
      over, ok, jobs, lo := SequenceNext(ts, lo, ok, jobs);
      if over {
        return Overran;
      }
    }
    assert jobs + [] == jobs;
    r := Ran(ok, jobs);
  }

  /** No word of the line is taken for an operator. */
  ghost predicate LineClear(ts: seq<Token>, lo: nat)
    requires lo <= |ts|
    decreases |ts| - lo
  {
    lo < |ts| ==> CommandClear(ts, lo) && LineClear(ts, After(ts, lo))
  }

  /** Every stage of the line fits. */
  predicate LineFits(ts: seq<Token>, lo: nat)
    requires lo <= |ts|
    decreases |ts| - lo
  {
    lo < |ts| ==> StagesFit(ts, lo, lo, EndOf(ts, lo)) && LineFits(ts, After(ts, lo))
  }

  /** An accepted line is split without failure, into the jobs its tokens say, exactly
      when no word of it is taken for an operator and every stage fits. If only the
      first of these holds, a store goes past the end of an array. */
  lemma {:induction false} SplitExact(ts: seq<Token>, lo: nat)
    requires lo <= |ts| && Spelled(ts) && (lo < |ts| ==> Good(ts, lo))
    ensures Jobs(ts, lo) == Ran(true, JobsOf(ts, lo)) <==> LineClear(ts, lo) && LineFits(ts, lo)
    ensures LineClear(ts, lo) ==> (Jobs(ts, lo) == Overran <==> !LineFits(ts, lo))
    decreases |ts| - lo
  {
    if lo < |ts| {
      var next := After(ts, lo);
      if next < |ts| {
        GoodAfter(ts, lo, EndOf(ts, lo));
      }
      SplitExact(ts, next);
      CommandExact(ts, lo);
      FirstJob(ts, lo);
    }
  }

  /** The jobs are the right ones exactly when the first one and the others are. */
  lemma FirstJob(ts: seq<Token>, lo: nat)
    requires lo < |ts|
    ensures Jobs(ts, lo) == Ran(true, JobsOf(ts, lo))
            <==> CommandAt(ts, lo) == Split(StagesOf(ts, lo, lo, EndOf(ts, lo)))
                 && Jobs(ts, After(ts, lo)) == Ran(true, JobsOf(ts, After(ts, lo)))
  {
    var c, rest, all := CommandAt(ts, lo), Jobs(ts, After(ts, lo)), JobsOf(ts, lo);
    assert all[0] == JobAt(ts, lo, StagesOf(ts, lo, lo, EndOf(ts, lo))) && all[1..] == JobsOf(ts, After(ts, lo));
    if c.Split? && rest.Ran? {
      var js := [JobAt(ts, lo, c.parts)] + rest.jobs;
      assert js[0] == JobAt(ts, lo, c.parts) && js[1..] == rest.jobs;
    }
  }

  /** No word spells an operator: a simple way to see to the first condition. */
  ghost predicate AllPlain(ts: seq<Token>) {
    forall k {:trigger ts[k]} :: 0 <= k < |ts| && ts[k].kind == Word ==>
      && ts[k].value != "&" && ts[k].value != ";"
      && ts[k].value != "<" && ts[k].value != ">" && ts[k].value != ">>"
  }

  lemma {:induction false} PlainStages(ts: seq<Token>, lo: nat, i: nat, hi: nat)
    requires AllPlain(ts) && lo <= i <= hi <= |ts|
    ensures StagesClear(ts, lo, i, hi)
    decreases hi - i
  {
    if i == hi {
      PlainSlice(ts, lo, hi);
    } else if ts[i].kind == Pipe {
      PlainSlice(ts, lo, i);
      PlainStages(ts, i + 1, i + 1, hi);
    } else {
      PlainStages(ts, lo, i + 1, hi);
    }
  }

  lemma PlainSlice(ts: seq<Token>, lo: nat, hi: nat)
    requires AllPlain(ts) && lo <= hi <= |ts|
    ensures AllClear(ts[lo..hi]) && Unbroken(ts[lo..hi])
  {
    forall k | 0 <= k < hi - lo
      ensures Clear(ts[lo..hi], k)
    {
      assert ts[lo..hi][k] == ts[lo + k];
    }
  }

  lemma {:induction false} PlainLine(ts: seq<Token>, lo: nat)
    requires AllPlain(ts) && lo <= |ts|
    ensures LineClear(ts, lo)
    decreases |ts| - lo
  {
    if lo < |ts| {
      PlainStages(ts, lo, lo, EndOf(ts, lo));
      PlainSlice(ts, lo, EndOf(ts, lo));
      PlainLine(ts, After(ts, lo));
    }
  }

  /** A line of the shell whose words spell no operator and whose stages fit is never
      refused, and its jobs are those its tokens say. */
  lemma AcceptedIsSplit(line: string)
    requires Lex(line).Tokens? && Acceptable(Lex(line).tokens) && AllPlain(Lex(line).tokens)
    requires LineFits(Lex(line).tokens, 0)
    ensures Jobs(Lex(line).tokens, 0) == Ran(true, JobsOf(Lex(line).tokens, 0))
  {
    LexSpells(line);
    PlainLine(Lex(line).tokens, 0);
    SplitExact(Lex(line).tokens, 0);
  }

  // ---- lines on which the shell goes wrong ----

  ghost predicate WordsOnly(ts: seq<Token>) {
    ts != [] && forall k {:trigger ts[k]} :: 0 <= k < |ts| ==> ts[k].kind == Word
  }

  lemma {:induction false} NoEnd(ts: seq<Token>, i: nat)
    requires WordsOnly(ts) && i <= |ts|
    ensures EndOf(ts, i) == |ts|
    decreases |ts| - i
  {
    if i < |ts| {
      NoEnd(ts, i + 1);
    }
  }

  /** The outcome of a line with one command, in the foreground. */
  function Alone(r: Split<Stage>): Outcome {
    match r
    case TooLong => Overran
    case Refused => Ran(false, [])
    case Split(stages) => Ran(true, [Job(false, stages)])
  }

  lemma WordsAccepted(ts: seq<Token>)
    requires WordsOnly(ts)
    ensures Acceptable(ts)
  {
    assert forall k :: 0 <= k < |ts| ==> Followed(ts, k);
  }

  /** A line of words is accepted, and is one command without bars. */
  lemma {:induction false} WordsLine(ts: seq<Token>)
    requires WordsOnly(ts)
    ensures Acceptable(ts) && EndOf(ts, 0) == After(ts, 0) == |ts|
    ensures CommandAt(ts, 0) == ParseStage(ts, true)
  {
    WordsAccepted(ts);
    NoEnd(ts, 0);
    assert ts[0..] == ts;
  }

  /** One command, up to the end of the line. */
  lemma {:induction false} OnlyJob(ts: seq<Token>, lo: nat)
    requires lo < |ts| && EndOf(ts, lo) == After(ts, lo) == |ts|
    ensures Jobs(ts, lo) == Alone(CommandAt(ts, lo))
  {
    assert Jobs(ts, |ts|) == Ran(true, []);
  }

  /** A quoted '>', a word to the parser, is a redirection without a file. */
  lemma QuotedOperatorRefused()
    ensures var line := "echo \">\"";
            Lex(line).Tokens? && Acceptable(Lex(line).tokens) && Jobs(Lex(line).tokens, 0) == Ran(false, [])
  {
    var ts := [Token(Word, "echo"), Token(Word, ">")];
    RoundTrip(ts, [Bare, Doubles]);
    QuotedSecond("echo", '>');
    assert "echo" + [' ', '"', '>', '"'] == "echo \">\"";
    WordsLine(ts);
    OnlyJob(ts, 0);
    RefusedPass();
  }

  lemma RefusedPass()
    ensures ParseStage([Token(Word, "echo"), Token(Word, ">")], true) == Refused
  {
    var ts := [Token(Word, "echo"), Token(Word, ">")];
    assert InPass(ts[1..][1..], true) == Pass([], []);
    assert InPass(ts[1..], true) == Pass([">"], []);
    assert InPass(ts, true) == Pass(["echo", ">"], []);
    StoredAll(ts, true);
    assert OutPass(["echo", ">"][1..]) == Failed;
  }

  /** A bare word, and a character between double quotes. */
  lemma QuotedSecond(v: string, c: char)
    requires c != '"' && c != '\\'
    ensures Line([Token(Word, v), Token(Word, [c])], [Bare, Doubles]) == v + [' ', '"', c, '"']
  {
    var ts, styles := [Token(Word, v), Token(Word, [c])], [Bare, Doubles];
    assert InDoubles([c][1..]) == [] && InDoubles([c]) == [c];
    assert Quote([c], Doubles) == ['"', c, '"'];
    assert Line(ts[1..], styles[1..]) == Quote([c], Doubles);
  }

  /** A quoted '<' turns the argument behind it into an input file, and nothing is
      refused. */
  lemma QuotedOperatorMissplit()
    ensures var line := "cat \"<\" x";
            && Lex(line) == Tokens([Token(Word, "cat"), Token(Word, "<"), Token(Word, "x")])
            && Acceptable(Lex(line).tokens)
            && JobsOf(Lex(line).tokens, 0) == [Job(false, [Stage(["cat", "<", "x"], [], [])])]
            && Jobs(Lex(line).tokens, 0) == Ran(true, [Job(false, [Stage(["cat"], ["x"], [])])])
  {
    var ts := [Token(Word, "cat"), Token(Word, "<"), Token(Word, "x")];
    RoundTrip(ts, [Bare, Doubles, Bare]);
    QuotedThird();
    WordsLine(ts);
    OnlyJob(ts, 0);
    MissplitParse();
    MissplitMeaning();
  }

  lemma QuotedThird()
    ensures Line([Token(Word, "cat"), Token(Word, "<"), Token(Word, "x")], [Bare, Doubles, Bare]) == "cat \"<\" x"
  {
    var ts, styles := [Token(Word, "cat"), Token(Word, "<"), Token(Word, "x")], [Bare, Doubles, Bare];
    assert InDoubles("<"[1..]) == [] && InDoubles("<") == "<" && Quote("<", Doubles) == "\"<\"";
    assert Line(ts[1..][1..], styles[1..][1..]) == "x";
    assert Line(ts[1..], styles[1..]) == "\"<\" x";
  }

  lemma MissplitPass()
    ensures InPass([Token(Word, "cat"), Token(Word, "<"), Token(Word, "x")], true) == Pass(["cat"], ["x"])
  {
    var ts := [Token(Word, "cat"), Token(Word, "<"), Token(Word, "x")];
    assert InPass(ts[1..][2..], true) == Pass([], []);
    assert InPass(ts[1..], true) == Pass([], ["x"]);
  }

  lemma MissplitParse()
    ensures ParseStage([Token(Word, "cat"), Token(Word, "<"), Token(Word, "x")], true) ==
            Split([Stage(["cat"], ["x"], [])])
  {
    MissplitPass();
    StoredAll([Token(Word, "cat"), Token(Word, "<"), Token(Word, "x")], true);
    assert OutPass(["cat"][1..]) == Pass([], []) && OutPass(["cat"]) == Pass(["cat"], []);
  }

  lemma MissplitMeaning()
    ensures var ts := [Token(Word, "cat"), Token(Word, "<"), Token(Word, "x")];
            JobsOf(ts, 0) == [Job(false, [Stage(["cat", "<", "x"], [], [])])]
  {
    var ts := [Token(Word, "cat"), Token(Word, "<"), Token(Word, "x")];
    NoEnd(ts, 0);
    NoBars(ts, 0, 0, 3);
    assert ts[0..3] == ts && JobsOf(ts, 3) == [] && After(ts, 0) == 3;
    MissplitStage();
  }

  lemma MissplitStage()
    ensures StageOf([Token(Word, "cat"), Token(Word, "<"), Token(Word, "x")]) == Stage(["cat", "<", "x"], [], [])
  {
    var ts := [Token(Word, "cat"), Token(Word, "<"), Token(Word, "x")];
    assert Pick(ts, 3, Arg) == [] && Pick(ts, 2, Arg) == ["x"] && Pick(ts, 1, Arg) == ["<", "x"];
    assert Pick(ts, 3, Input) == [] && Pick(ts, 2, Input) == [] && Pick(ts, 1, Input) == [];
    assert Outs(ts, 3) == [] && Outs(ts, 2) == [] && Outs(ts, 1) == [];
  }

  /** n words of one letter. */
  function Letters(n: nat): (ts: seq<Token>)
    ensures |ts| == n && forall k {:trigger ts[k]} :: 0 <= k < n ==> ts[k] == Token(Word, "a")
  {
    seq(n, _ => Token(Word, "a"))
  }

  lemma {:induction false} WordsPicked(ts: seq<Token>, i: nat)
    requires WordsOnly(ts) && i <= |ts|
    ensures |Pick(ts, i, Arg)| == |ts| - i
    decreases |ts| - i
  {
    if i < |ts| {
      WordsPicked(ts, i + 1);
    }
  }

  lemma {:induction false} LettersLength(ts: seq<Token>, styles: seq<Style>)
    requires |ts| == |styles| > 0
    requires forall k {:trigger ts[k]} :: 0 <= k < |ts| ==> ts[k] == Token(Word, "a")
    requires forall k {:trigger styles[k]} :: 0 <= k < |ts| ==> styles[k] == Bare
    ensures |Line(ts, styles)| == 2 * |ts| - 1
  {
    if |ts| > 1 {
      LettersLength(ts[1..], styles[1..]);
    }
  }

  lemma LettersOverrun(ts: seq<Token>)
    requires ts == Letters(ARGMAX)
    ensures Acceptable(ts) && Jobs(ts, 0) == Overran
  {
    WordsLine(ts);
    WordsPicked(ts, 0);
    NoBars(ts, 0, 0, |ts|);
    assert ts[0..|ts|] == ts && !LineFits(ts, 0);
    PlainLine(ts, 0);
    SplitExact(ts, 0);
  }

  /** A hundred words are a line the lexer and the parser accept, and the NULL behind
      them is stored past the end of argv. */
  lemma HundredWordsOverrun()
    ensures var line := Line(Letters(ARGMAX), seq(ARGMAX, _ => Bare));
            && |line| == 199 && Lex(line) == Tokens(Letters(ARGMAX))
            && Acceptable(Lex(line).tokens) && Jobs(Lex(line).tokens, 0) == Overran
  {
    var ts, styles := Letters(ARGMAX), seq(ARGMAX, _ => Bare);
    RoundTrip(ts, styles);
    LettersLength(ts, styles);
    LettersOverrun(ts);
  }

  lemma Associate<T>(a: seq<T>, b: seq<T>, c: seq<T>)
    ensures a + (b + c) == a + b + c
  {
  }

  // ---- no word is lost, and none is used twice ----

  function Count(s: seq<string>, x: string): nat {
    if s == [] then 0 else (if s[0] == x then 1 else 0) + Count(s[1..], x)
  }

  function Names(outs: seq<Out>): seq<string> {
    if outs == [] then [] else [outs[0].name] + Names(outs[1..])
  }

  /** How often a stage names x, in whatever role. */
  function StageUses(s: Stage, x: string): nat {
    Count(s.argv, x) + Count(s.inputs, x) + Count(Names(s.outputs), x)
  }

  function StagesUse(ss: seq<Stage>, x: string): nat {
    if ss == [] then 0 else StageUses(ss[0], x) + StagesUse(ss[1..], x)
  }

  function JobsUse(js: seq<Job>, x: string): nat {
    if js == [] then 0 else StagesUse(js[0].stages, x) + JobsUse(js[1..], x)
  }

  /** How many words among tokens i to hi are x. */
  function WordsIn(ts: seq<Token>, i: nat, hi: nat, x: string): nat
    requires i <= hi <= |ts|
    decreases hi - i
  {
    if i == hi then 0 else (if ts[i].kind == Word && ts[i].value == x then 1 else 0) + WordsIn(ts, i + 1, hi, x)
  }

  lemma CountCons(v: string, s: seq<string>, x: string)
    ensures Count([v] + s, x) == (if v == x then 1 else 0) + Count(s, x)
  {
    assert ([v] + s)[1..] == s;
  }

  lemma NamesCons(o: Out, s: seq<Out>)
    ensures Names([o] + s) == [o.name] + Names(s)
  {
    assert ([o] + s)[1..] == s;
  }

  /** Each word has exactly one role. */
  lemma {:induction false} PickCount(ts: seq<Token>, i: nat, x: string)
    requires i <= |ts|
    ensures Count(Pick(ts, i, Arg), x) + Count(Pick(ts, i, Input), x) + Count(Names(Outs(ts, i)), x)
            == WordsIn(ts, i, |ts|, x)
    decreases |ts| - i
  {
    if i < |ts| {
      PickCount(ts, i + 1, x);
      if ts[i].kind == Word {
        CountCons(ts[i].value, Pick(ts, i + 1, Arg), x);
        CountCons(ts[i].value, Pick(ts, i + 1, Input), x);
        if RoleAt(ts, i) == Output {
          NamesCons(Out(ts[i].value, ts[i - 1].kind == GtGt), Outs(ts, i + 1));
          CountCons(ts[i].value, Names(Outs(ts, i + 1)), x);
        }
      }
    }
  }

  lemma {:induction false} WordsSlice(ts: seq<Token>, lo: nat, hi: nat, i: nat, x: string)
    requires lo <= hi <= |ts| && i <= hi - lo
    ensures WordsIn(ts[lo..hi], i, hi - lo, x) == WordsIn(ts, lo + i, hi, x)
    decreases hi - lo - i
  {
    if i < hi - lo {
      WordsSlice(ts, lo, hi, i + 1, x);
    }
  }

  lemma {:induction false} WordsSplit(ts: seq<Token>, lo: nat, i: nat, hi: nat, x: string)
    requires lo <= i <= hi <= |ts|
    ensures WordsIn(ts, lo, hi, x) == WordsIn(ts, lo, i, x) + WordsIn(ts, i, hi, x)
    decreases i - lo
  {
    if lo < i {
      WordsSplit(ts, lo + 1, i, hi, x);
    }
  }

  lemma StageCounts(ts: seq<Token>, lo: nat, hi: nat, x: string)
    requires lo <= hi <= |ts|
    ensures StageUses(StageOf(ts[lo..hi]), x) == WordsIn(ts, lo, hi, x)
  {
    PickCount(ts[lo..hi], 0, x);
    WordsSlice(ts, lo, hi, 0, x);
  }

  lemma StagesUseCons(s: Stage, ss: seq<Stage>, x: string)
    ensures StagesUse([s] + ss, x) == StageUses(s, x) + StagesUse(ss, x)
  {
    assert ([s] + ss)[1..] == ss;
  }

  lemma {:induction false} StagesCount(ts: seq<Token>, lo: nat, i: nat, hi: nat, x: string)
    requires lo <= i <= hi <= |ts|
    ensures StagesUse(StagesOf(ts, lo, i, hi), x) == WordsIn(ts, lo, hi, x)
    decreases hi - i
  {
    if i == hi {
      StageCounts(ts, lo, hi, x);
      StagesUseCons(StageOf(ts[lo..hi]), [], x);
      assert [StageOf(ts[lo..hi])] + [] == [StageOf(ts[lo..hi])];
    } else if ts[i].kind == Pipe {
      StagesCount(ts, i + 1, i + 1, hi, x);
      StageCounts(ts, lo, i, x);
      StagesUseCons(StageOf(ts[lo..i]), StagesOf(ts, i + 1, i + 1, hi), x);
      WordsSplit(ts, lo, i, hi, x);
    } else {
      StagesCount(ts, lo, i + 1, hi, x);
    }
  }

  /** Arguments and redirection targets, over all jobs, are exactly the words of the line. */
  lemma {:induction false} JobsCount(ts: seq<Token>, lo: nat, x: string)
    requires lo <= |ts|
    ensures JobsUse(JobsOf(ts, lo), x) == WordsIn(ts, lo, |ts|, x)
    decreases |ts| - lo
  {
    if lo < |ts| {
      var e, next := EndOf(ts, lo), After(ts, lo);
      var job := JobAt(ts, lo, StagesOf(ts, lo, lo, e));
      StagesCount(ts, lo, lo, e, x);
      WordsSplit(ts, lo, e, |ts|, x);
      assert ([job] + JobsOf(ts, next))[1..] == JobsOf(ts, next);
      JobsCount(ts, next, x);
    }
  }

  /** Every stage of every job of an accepted line has a command. */
  lemma {:induction false} CommandsThere(ts: seq<Token>, lo: nat)
    requires lo <= |ts| && (lo < |ts| ==> Good(ts, lo))
    ensures forall j, k {:trigger JobsOf(ts, lo)[j].stages[k]} ::
              0 <= j < |JobsOf(ts, lo)| && 0 <= k < |JobsOf(ts, lo)[j].stages| ==>
              |JobsOf(ts, lo)[j].stages[k].argv| > 0
    decreases |ts| - lo
  {
    if lo < |ts| {
      var e := EndOf(ts, lo);
      StagesThere(ts, lo, lo, e);
      var next := After(ts, lo);
      if next < |ts| {
        GoodAfter(ts, lo, e);
      }
      CommandsThere(ts, next);
      var jobs := JobsOf(ts, lo);
      forall j, k | 0 <= j < |jobs| && 0 <= k < |jobs[j].stages|
        ensures |jobs[j].stages[k].argv| > 0
      {
        if j > 0 {
          assert jobs[j] == JobsOf(ts, next)[j - 1];
        }
      }
    }
  }

  lemma {:induction false} StagesThere(ts: seq<Token>, lo: nat, i: nat, hi: nat)
    requires Good(ts, lo) && lo <= i <= hi <= |ts| && (hi < |ts| ==> ts[hi].kind == Semi || ts[hi].kind == Amp)
    requires forall k {:trigger ts[k]} :: lo <= k < hi ==> ts[k].kind != Semi && ts[k].kind != Amp
    requires forall k {:trigger ts[k]} :: lo <= k < i ==> ts[k].kind != Pipe
    ensures forall k {:trigger StagesOf(ts, lo, i, hi)[k]} :: 0 <= k < |StagesOf(ts, lo, i, hi)| ==>
              |StagesOf(ts, lo, i, hi)[k].argv| > 0
    decreases hi - i
  {
    if i == hi {
      StageBetween(ts, lo, hi);
      HasCommand(ts[lo..hi]);
    } else if ts[i].kind == Pipe {
      StageBetween(ts, lo, i);
      HasCommand(ts[lo..i]);
      GoodAfter(ts, lo, i);
      StagesThere(ts, i + 1, i + 1, hi);
    } else {
      StagesThere(ts, lo, i + 1, hi);
    }
  }
}
