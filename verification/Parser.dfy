/** c-shell/src/parser.c: mutually recursive recognisers over one cursor into the token
    list. NULL, the end of the list, is the index after the last token. */
module Parser {
  import opened Lexer

  /** An operator at k is followed by a word, or is a final '&'. */
  predicate Followed(ts: seq<Token>, k: nat)
    requires k < |ts|
  {
    ts[k].kind != Word ==> (k + 1 < |ts| && ts[k + 1].kind == Word) || (ts[k].kind == Amp && k + 1 == |ts|)
  }

  ghost predicate FollowedFrom(ts: seq<Token>, i: nat) {
    forall k {:trigger Followed(ts, k)} :: i <= k < |ts| ==> Followed(ts, k)
  }

  /** The lines the shell accepts, said without the grammar: nothing, or a word first
      and a word after every operator but a final '&'. */
  ghost predicate Acceptable(ts: seq<Token>) {
    ts == [] || (ts[0].kind == Word && FollowedFrom(ts, 0))
  }

  /** What each recogniser demands from its position on. */
  ghost predicate Starts(ts: seq<Token>, i: nat, orEnd: bool) {
    if i < |ts| then ts[i].kind == Word && FollowedFrom(ts, i) else orEnd
  }

  lemma FromHere(ts: seq<Token>, i: nat)
    requires i < |ts|
    ensures FollowedFrom(ts, i) <==> Followed(ts, i) && FollowedFrom(ts, i + 1)
  {
  }

  class TokenParser {
    const tokens: seq<Token>
    var current: nat

    constructor (tokens: seq<Token>)
      ensures this.tokens == tokens && current == 0
    {
      this.tokens, current := tokens, 0;
    }

    method ParseArg() returns (r: bool)
      requires current <= |tokens|
      modifies `current
      ensures (r <==> FollowedFrom(tokens, old(current))) && (r ==> current == |tokens|)
      decreases |tokens| - current, 1
    {
      if current == |tokens| {
        return true;
      }
      FromHere(tokens, current);
      if tokens[current].kind == Word {
        current := current + 1;
        r := ParseArg();
      } else if tokens[current].kind == Lt || tokens[current].kind == Gt || tokens[current].kind == GtGt {
        current := current + 1;
        r := ParseTgt();
      } else if tokens[current].kind == Pipe || tokens[current].kind == Semi {
        current := current + 1;
        r := ParseCmd();
      } else {
        current := current + 1;
        r := ParseBg();
      }
    }

    method ParseCmd() returns (r: bool)
      requires current <= |tokens|
      modifies `current
      ensures (r <==> Starts(tokens, old(current), false)) && (r ==> current == |tokens|)
      decreases |tokens| - current, 0
    {
      if current == |tokens| {
        return false;
      }
      FromHere(tokens, current);
      if tokens[current].kind == Word {
        current := current + 1;
        r := ParseArg();
        return;
      }
      return false;
    }

    method ParseTgt() returns (r: bool)
      requires current <= |tokens|
      modifies `current
      ensures (r <==> Starts(tokens, old(current), false)) && (r ==> current == |tokens|)
      decreases |tokens| - current, 0
    {
      if current == |tokens| {
        return false;
      }
      FromHere(tokens, current);
      if tokens[current].kind == Word {
        current := current + 1;
        r := ParseArg();
        return;
      }
      return false;
    }

    method ParseBg() returns (r: bool)
      requires current <= |tokens|
      modifies `current
      ensures (r <==> Starts(tokens, old(current), true)) && (r ==> current == |tokens|)
      decreases |tokens| - current, 0
    {
      if current == |tokens| {
        return true;
      }
      FromHere(tokens, current);
      if tokens[current].kind == Word {
        current := current + 1;
        r := ParseArg();
        return;
      }
      return false;
    }

    method ParseLine() returns (r: bool)
      requires current <= |tokens|
      modifies `current
      ensures (r <==> Starts(tokens, old(current), true)) && (r ==> current == |tokens|)
    {
      if current == |tokens| {
        return true;
      }
      FromHere(tokens, current);
      if tokens[current].kind == Word {
        current := current + 1;
        r := ParseArg();
        return;
      }
      return false;
    }

    /** parsing accepts exactly the acceptable lines; its last test, that the cursor is
        at the end, never fails. */
    method Parsing() returns (r: bool)
      modifies `current
      ensures r <==> Acceptable(tokens)
    {
      current := 0;
      r := ParseLine();
      r := r && current == |tokens|;
    }
  }
}
