/** The regular-expression matcher of xv6/user/grep.c, after Kernighan and Pike,
    against the languages its expressions denote. A C string is a sequence of
    characters without its terminating NUL. */
module Grep {

  /** One factor of an expression: a character, or a character repeated; '.' is any. */
  datatype Item = Char(c: char) | Star(c: char)

  predicate Fits(c: char, x: char) {
    c == '.' || c == x
  }

  /** The factors of an expression, as matchhere splits it. */
  function Items(re: string): seq<Item> {
    if re == [] then []
    else if |re| > 1 && re[1] == '*' then [Star(re[0])] + Items(re[2..])
    else if re == "$" then []
    else [Char(re[0])] + Items(re[1..])
  }

  /** The expression ends in a '$' that stands for the end of the text. */
  predicate Anchored(re: string) {
    if re == [] then false
    else if |re| > 1 && re[1] == '*' then Anchored(re[2..])
    else if re == "$" then true
    else Anchored(re[1..])
  }

  /** The language of one factor. */
  ghost predicate Denotes(item: Item, w: string) {
    match item
    case Char(c) => |w| == 1 && Fits(c, w[0])
    case Star(c) => forall j :: 0 <= j < |w| ==> Fits(c, w[j])
  }

  /** The language of a sequence of factors: concatenations of their words. */
  ghost predicate InLanguage(items: seq<Item>, w: string) {
    if items == [] then w == []
    else exists k {:trigger w[..k]} :: 0 <= k <= |w| && Denotes(items[0], w[..k]) && InLanguage(items[1..], w[k..])
  }

  /** Some prefix of text is in the language, and it is all of text if re says so. */
  ghost predicate Here(re: string, text: string) {
    exists n {:trigger text[..n]} ::
        0 <= n <= |text| && InLanguage(Items(re), text[..n]) && (Anchored(re) ==> n == |text|)
  }

  /** Some suffix of text, or text itself under '^', starts with a word of re. */
  ghost predicate Matches(re: string, text: string) {
    if re != [] && re[0] == '^' then Here(re[1..], text)
    else exists i {:trigger text[i..]} :: 0 <= i <= |text| && Here(re, text[i..])
  }

  /** c may be repeated k times at the start of text. */
  ghost predicate Run(c: char, text: string, k: nat) {
    k <= |text| && forall j {:trigger text[j]} :: 0 <= j < k ==> Fits(c, text[j])
  }

  lemma DropTake(s: string, k: nat, n: nat)
    requires k <= n <= |s|
    ensures s[..n][k..] == s[k..][..n - k]
  {
  }

  lemma HereEmpty(text: string)
    ensures Here("", text)
  {
    assert InLanguage(Items(""), text[..0]);
  }

  lemma HereEnd(text: string)
    ensures Here("$", text) <==> text == []
  {
    if text == [] {
      assert InLanguage(Items("$"), text[..0]);
    }
  }

  lemma HereChar(re: string, text: string)
    requires re != [] && !(|re| > 1 && re[1] == '*') && re != "$"
    ensures Here(re, text) <==> text != [] && Fits(re[0], text[0]) && Here(re[1..], text[1..])
  {
    if Here(re, text) {
      var n :| 0 <= n <= |text| && InLanguage(Items(re), text[..n]) && (Anchored(re) ==> n == |text|);
      var k :| 0 <= k <= n && Denotes(Char(re[0]), text[..n][..k]) && InLanguage(Items(re[1..]), text[..n][k..]);
      assert k == 1;
      DropTake(text, 1, n);
      assert text[..n][..1][0] == text[0];
    }
    if text != [] && Fits(re[0], text[0]) && Here(re[1..], text[1..]) {
      var n :| 0 <= n <= |text[1..]| && InLanguage(Items(re[1..]), text[1..][..n])
        && (Anchored(re[1..]) ==> n == |text[1..]|);
      var w := text[..n + 1];
      DropTake(text, 1, n + 1);
      assert Denotes(Char(re[0]), w[..1]);
      assert InLanguage(Items(re), w);
    }
  }

  lemma HereStar(re: string, text: string)
    requires |re| > 1 && re[1] == '*'
    ensures Here(re, text) <==>
              exists k {:trigger text[k..]} :: 0 <= k <= |text| && Run(re[0], text, k) && Here(re[2..], text[k..])
  {
    if Here(re, text) {
      var n :| 0 <= n <= |text| && InLanguage(Items(re), text[..n]) && (Anchored(re) ==> n == |text|);
      var w := text[..n];
      var k :| 0 <= k <= n && Denotes(Star(re[0]), w[..k]) && InLanguage(Items(re[2..]), w[k..]);
      DropTake(text, k, n);
      forall j | 0 <= j < k
        ensures Fits(re[0], text[j])
      {
        assert w[..k][j] == text[j];
      }
      assert Here(re[2..], text[k..]);
    }
    if k: nat :| 0 <= k <= |text| && Run(re[0], text, k) && Here(re[2..], text[k..]) {
      var n :| 0 <= n <= |text[k..]| && InLanguage(Items(re[2..]), text[k..][..n])
        && (Anchored(re[2..]) ==> n == |text[k..]|);
      var w := text[..k + n];
      DropTake(text, k, k + n);
      assert Denotes(Star(re[0]), w[..k]);
      assert InLanguage(Items(re), w);
    }
  }

  /** matchhere: the expression at the beginning of text. */
  method MatchHere(re: string, text: string) returns (b: bool)
    ensures b <==> Here(re, text)
    decreases |re|, 0
  {
    if re == [] {
      HereEmpty(text);
      return true;
    }
    if |re| > 1 && re[1] == '*' {
      HereStar(re, text);
      b := MatchStar(re[0], re[2..], text);
      return;
    }
    if re[0] == '$' && |re| == 1 {
      assert re == "$";
      HereEnd(text);
      return text == [];
    }
    HereChar(re, text);
    if text != [] && (re[0] == '.' || re[0] == text[0]) {
      b := MatchHere(re[1..], text[1..]);
      return;
    }
    return false;
  }

  /** matchstar: any number of c, then re, at the beginning of text. */
  method MatchStar(c: char, re: string, text: string) returns (b: bool)
    ensures b <==> exists k {:trigger text[k..]} :: 0 <= k <= |text| && Run(c, text, k) && Here(re, text[k..])
    decreases |re|, 1
  {
    var i := 0;
    while true
      invariant 0 <= i <= |text| && Run(c, text, i)
      invariant forall k {:trigger text[k..]} :: 0 <= k < i ==> !Here(re, text[k..])
      decreases |text| - i
    {
      b := MatchHere(re, text[i..]);
      if b {
        return;
      }
      if i == |text| || !(text[i] == c || c == '.') {
        return;
      }
      i := i + 1;
    }
  }

  /** match: the expression anywhere in text. */
  method Match(re: string, text: string) returns (b: bool)
    ensures b <==> Matches(re, text)
  {
    if re != [] && re[0] == '^' {
      b := MatchHere(re[1..], text);
      return;
    }
    var i := 0;
    while true
      invariant 0 <= i <= |text| && forall k {:trigger text[k..]} :: 0 <= k < i ==> !Here(re, text[k..])
      decreases |text| - i
    {
      b := MatchHere(re, text[i..]);
      if b || i == |text| {
        return;
      }
      i := i + 1;
    }
  }
}
