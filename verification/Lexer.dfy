/** c-shell/src/lexer.c: one input line to tokens, with three ways of quoting. A line
    is a sequence of characters without its terminating NUL. */
module Lexer {

  datatype Kind = Pipe | Amp | Semi | Lt | Gt | GtGt | Word

  datatype Token = Token(kind: Kind, value: string)

  datatype Lexed = Invalid | Tokens(tokens: seq<Token>)

  predicate IsSpace(c: char) {
    c == ' ' || c == '\t' || c == '\n' || c == '\r'
  }

  predicate IsSpecial(c: char) {
    c == '|' || c == '&' || c == '>' || c == '<' || c == ';'
  }

  function Spelling(k: Kind): string
    requires k != Word
  {
    match k
    case Pipe => "|"
    case Amp => "&"
    case Semi => ";"
    case Lt => "<"
    case Gt => ">"
    case GtGt => ">>"
  }

  // ---- what the lexer computes ----

  /** Part of a word, and the rest of the line; Bad where the line ends too soon. */
  datatype Piece = Bad | Piece(text: string, rest: string)

  function Prepend(w: string, p: Piece): Piece {
    match p
    case Bad => Bad
    case Piece(text, rest) => Piece(w + text, rest)
  }

  /** After an opening single quote. */
  function SingleQuoted(s: string): (p: Piece)
    ensures p.Piece? ==> |p.text| + |p.rest| < |s|
  {
    if s == [] then Bad
    else if s[0] == '\'' then Piece([], s[1..])
    else Prepend([s[0]], SingleQuoted(s[1..]))
  }

  /** What a backslash before c stands for between double quotes. */
  function Escaped(c: char): string {
    if c == '"' then "\"" else if c == '\\' then "\\" else ['\\', c]
  }

  /** After an opening double quote. */
  function DoubleQuoted(s: string): (p: Piece)
    ensures p.Piece? ==> |p.text| + |p.rest| < |s|
  {
    if s == [] then Bad
    else if s[0] == '"' then Piece([], s[1..])
    else if s[0] == '\\' then if |s| == 1 then Bad else Prepend(Escaped(s[1]), DoubleQuoted(s[2..]))
    else Prepend([s[0]], DoubleQuoted(s[1..]))
  }

  /** One step of a word: a quoted part, or a plain character. */
  function Part(s: string): (p: Piece)
    requires s != []
    ensures p.Piece? ==> |p.text| + |p.rest| <= |s| && |p.rest| < |s|
  {
    if s[0] == '\\' then if |s| == 1 then Bad else Piece([s[1]], s[2..])
    else if s[0] == '"' then DoubleQuoted(s[1..])
    else if s[0] == '\'' then SingleQuoted(s[1..])
    else Piece([s[0]], s[1..])
  }

  predicate EndsWord(s: string) {
    s == [] || IsSpace(s[0]) || IsSpecial(s[0])
  }

  /** A word, to the next space or operator that is not quoted. */
  function WordOf(s: string): (p: Piece)
    ensures p.Piece? ==> |p.text| + |p.rest| <= |s| && (!EndsWord(s) ==> |p.rest| < |s|)
    decreases |s|
  {
    if EndsWord(s) then Piece([], s)
    else match Part(s)
         case Bad => Bad
         case Piece(text, rest) => Prepend(text, WordOf(rest))
  }

  function Add(t: Token, l: Lexed): Lexed {
    match l
    case Invalid => Invalid
    case Tokens(ts) => Tokens([t] + ts)
  }

  /** The operator at the start of s. */
  function Operator(s: string): Kind
    requires s != [] && IsSpecial(s[0])
  {
    if s[0] == '|' then Pipe else if s[0] == '&' then Amp else if s[0] == ';' then Semi else if s[0] == '<' then Lt
    else if |s| > 1 && s[1] == '>' then GtGt else Gt
  }

  function Lex(s: string): Lexed
    decreases |s|
  {
    if s == [] then Tokens([])
    else if IsSpace(s[0]) then Lex(s[1..])
    else if IsSpecial(s[0]) then
      Add(Token(Operator(s), Spelling(Operator(s))), Lex(s[|Spelling(Operator(s))|..]))
    else match WordOf(s)
         case Bad => Invalid
         case Piece(text, rest) => Add(Token(Word, text), Lex(rest))
  }

  // ---- quoting ----

  /** A word between single quotes, each of its own quotes written as '\''. */
  function InSingles(w: string): string {
    if w == [] then []
    else (if w[0] == '\'' then "'\\''" else [w[0]]) + InSingles(w[1..])
  }

  /** A word between double quotes, with backslashes before quotes and backslashes. */
  function InDoubles(w: string): string {
    if w == [] then []
    else (if w[0] == '"' || w[0] == '\\' then ['\\', w[0]] else [w[0]]) + InDoubles(w[1..])
  }

  /** A backslash before every character. */
  function Backslashed(w: string): string {
    if w == [] then [] else ['\\'] + ([w[0]] + Backslashed(w[1..]))
  }

  /** The ways to write a word. */
  datatype Style = Bare | Backslashes | Singles | Doubles

  function Quote(w: string, style: Style): string {
    match style
    case Bare => w
    case Backslashes => Backslashed(w)
    case Singles => "'" + InSingles(w) + "'"
    case Doubles => "\"" + InDoubles(w) + "\""
  }

  /** A character that means itself without a quote. */
  predicate Literal(c: char) {
    !IsSpace(c) && !IsSpecial(c) && c != '\\' && c != '"' && c != '\''
  }

  /** The word can be written this way: without quotes it must be plain, and it must
      not be empty unless there is something to show that it is there. */
  predicate Writable(w: string, style: Style) {
    && '\0' !in w
    && (style == Bare ==> w != [] && forall k :: 0 <= k < |w| ==> Literal(w[k]))
    && (style == Backslashes ==> w != [])
  }

  predicate Printable(t: Token, style: Style) {
    if t.kind == Word then Writable(t.value, style) else t.value == Spelling(t.kind)
  }

  function Written(t: Token, style: Style): string {
    if t.kind == Word then Quote(t.value, style) else t.value
  }

  /** Tokens with a space after each but the last, every word written in its style. */
  function Line(ts: seq<Token>, styles: seq<Style>): string
    requires |ts| == |styles|
  {
    if ts == [] then []
    else if |ts| == 1 then Written(ts[0], styles[0])
    else Written(ts[0], styles[0]) + ([' '] + Line(ts[1..], styles[1..]))
  }

  // ---- reading quotes back, a character at a time ----

  lemma Cons(c: char, tail: string)
    ensures ([c] + tail)[0] == c && ([c] + tail)[1..] == tail
  {
  }

  lemma DoublePlain(c: char, tail: string)
    requires c != '"' && c != '\\'
    ensures DoubleQuoted([c] + tail) == Prepend([c], DoubleQuoted(tail))
  {
    Cons(c, tail);
  }

  lemma DoubleEscape(c: char, tail: string)
    ensures DoubleQuoted(['\\'] + ([c] + tail)) == Prepend(Escaped(c), DoubleQuoted(tail))
  {
    var s := ['\\'] + ([c] + tail);
    Cons('\\', [c] + tail);
    assert s[1] == c && s[2..] == tail;
  }

  lemma SinglePlain(c: char, tail: string)
    requires c != '\''
    ensures SingleQuoted([c] + tail) == Prepend([c], SingleQuoted(tail))
  {
    Cons(c, tail);
  }

  lemma WordEscape(c: char, tail: string)
    ensures WordOf(['\\'] + ([c] + tail)) == Prepend([c], WordOf(tail))
  {
    var s := ['\\'] + ([c] + tail);
    Cons('\\', [c] + tail);
    assert s[1] == c && s[2..] == tail;
  }

  lemma WordSingle(tail: string)
    requires SingleQuoted(tail).Piece?
    ensures var p := SingleQuoted(tail); WordOf(['\''] + tail) == Prepend(p.text, WordOf(p.rest))
  {
    Cons('\'', tail);
  }

  lemma WordDouble(tail: string)
    requires DoubleQuoted(tail).Piece?
    ensures var p := DoubleQuoted(tail); WordOf(['"'] + tail) == Prepend(p.text, WordOf(p.rest))
  {
    Cons('"', tail);
  }

  lemma Assoc(a: string, b: string, c: string)
    ensures (a + b) + c == a + (b + c)
  {
  }

  /** InDoubles(w), the closing quote and rest, built from the left. */
  function DoublesThen(w: string, rest: string): string {
    if w == [] then ['"'] + rest
    else if w[0] == '"' || w[0] == '\\' then ['\\'] + ([w[0]] + DoublesThen(w[1..], rest))
    else [w[0]] + DoublesThen(w[1..], rest)
  }

  lemma {:induction false} DoublesAre(w: string, rest: string)
    ensures InDoubles(w) + (['"'] + rest) == DoublesThen(w, rest)
  {
    if w != [] {
      DoublesAre(w[1..], rest);
      var first := if w[0] == '"' || w[0] == '\\' then ['\\', w[0]] else [w[0]];
      Assoc(first, InDoubles(w[1..]), ['"'] + rest);
      assert ['\\', w[0]] == ['\\'] + [w[0]];
      Assoc(['\\'], [w[0]], DoublesThen(w[1..], rest));
    }
  }

  lemma {:induction false} DoublesBack(w: string, rest: string)
    ensures DoubleQuoted(DoublesThen(w, rest)) == Piece(w, rest)
  {
    if w == [] {
      Cons('"', rest);
    } else {
      DoublesBack(w[1..], rest);
      assert w == [w[0]] + w[1..];
      if w[0] == '"' || w[0] == '\\' {
        DoubleEscape(w[0], DoublesThen(w[1..], rest));
      } else {
        DoublePlain(w[0], DoublesThen(w[1..], rest));
      }
    }
  }

  /** InSingles(w), the closing quote and rest, built from the left. */
  function SinglesThen(w: string, rest: string): string {
    if w == [] then ['\''] + rest
    else if w[0] == '\'' then ['\''] + (['\\'] + (['\''] + (['\''] + SinglesThen(w[1..], rest))))
    else [w[0]] + SinglesThen(w[1..], rest)
  }

  lemma {:induction false} SinglesAre(w: string, rest: string)
    ensures InSingles(w) + (['\''] + rest) == SinglesThen(w, rest)
  {
    if w != [] {
      SinglesAre(w[1..], rest);
      var first := if w[0] == '\'' then "'\\''" else [w[0]];
      Assoc(first, InSingles(w[1..]), ['\''] + rest);
      Four('\'', '\\', '\'', '\'', SinglesThen(w[1..], rest));
    }
  }

  lemma Four(a: char, b: char, c: char, d: char, tail: string)
    ensures [a, b, c, d] + tail == [a] + ([b] + ([c] + ([d] + tail)))
  {
  }

  /** '\'' ends the quoted part, adds a quote, and opens another part. */
  lemma SingleReopens(tail: string, v: string, rest: string)
    requires SingleQuoted(tail).Piece?
             && Prepend(SingleQuoted(tail).text, WordOf(SingleQuoted(tail).rest)) == Piece(v, rest)
    ensures var s := ['\''] + (['\\'] + (['\''] + (['\''] + tail)));
            SingleQuoted(s).Piece?
              && Prepend(SingleQuoted(s).text, WordOf(SingleQuoted(s).rest)) == Piece(['\''] + v, rest)
  {
    var open := ['\\'] + (['\''] + (['\''] + tail));
    Cons('\'', open);
    WordEscape('\'', ['\''] + tail);
    WordSingle(tail);
    assert SingleQuoted(['\''] + open) == Piece([], open);
    assert WordOf(open) == Piece(['\''] + v, rest);
  }

  /** Single quotes: a quote of w ends the quoted part, and what follows it opens another. */
  lemma {:induction false} SinglesBack(w: string, rest: string)
    requires EndsWord(rest)
    ensures SingleQuoted(SinglesThen(w, rest)).Piece?
    ensures var p := SingleQuoted(SinglesThen(w, rest)); Prepend(p.text, WordOf(p.rest)) == Piece(w, rest)
  {
    if w == [] {
      Cons('\'', rest);
    } else {
      SinglesBack(w[1..], rest);
      var tail := SinglesThen(w[1..], rest);
      assert w == [w[0]] + w[1..];
      if w[0] == '\'' {
        SingleReopens(tail, w[1..], rest);
      } else {
        SinglePlain(w[0], tail);
        PrependTwice([w[0]], SingleQuoted(tail));
      }
    }
  }

  lemma PrependTwice(a: string, p: Piece)
    requires p.Piece?
    ensures var q := Prepend(a, p); Prepend(q.text, WordOf(q.rest)) == Prepend(a, Prepend(p.text, WordOf(p.rest)))
  {
    if WordOf(p.rest).Piece? {
      Assoc(a, p.text, WordOf(p.rest).text);
    }
  }

  lemma {:induction false} BackslashesBack(w: string, rest: string)
    requires EndsWord(rest)
    ensures WordOf(Backslashed(w) + rest) == Piece(w, rest)
  {
    if w == [] {
      assert Backslashed(w) + rest == rest;
    } else {
      BackslashesBack(w[1..], rest);
      var tail := Backslashed(w[1..]) + rest;
      Assoc(['\\'], [w[0]] + Backslashed(w[1..]), rest);
      Assoc([w[0]], Backslashed(w[1..]), rest);
      WordEscape(w[0], tail);
      assert w == [w[0]] + w[1..];
    }
  }

  lemma WordLiteral(c: char, tail: string)
    requires Literal(c)
    ensures WordOf([c] + tail) == Prepend([c], WordOf(tail))
  {
    Cons(c, tail);
  }

  lemma {:induction false} BareBack(w: string, rest: string)
    requires EndsWord(rest) && forall k :: 0 <= k < |w| ==> Literal(w[k])
    ensures WordOf(w + rest) == Piece(w, rest)
  {
    if w == [] {
      assert w + rest == rest;
    } else {
      BareBack(w[1..], rest);
      assert w == [w[0]] + w[1..];
      Assoc([w[0]], w[1..], rest);
      WordLiteral(w[0], w[1..] + rest);
    }
  }

  /** A word, however written, is read back if a space, an operator or the end of the
      line follows. */
  lemma QuoteBack(w: string, style: Style, rest: string)
    requires EndsWord(rest) && Writable(w, style)
    ensures WordOf(Quote(w, style) + rest) == Piece(w, rest)
  {
    match style
    case Bare => BareBack(w, rest);
    case Backslashes => BackslashesBack(w, rest);
    case Doubles =>
      Assoc(['"'], InDoubles(w) + ['"'], rest);
      Assoc(InDoubles(w), ['"'], rest);
      Assoc(['"'], InDoubles(w), ['"']);
      DoublesAre(w, rest);
      DoublesBack(w, rest);
      WordDouble(DoublesThen(w, rest));
    case Singles =>
      Assoc(['\''], InSingles(w) + ['\''], rest);
      Assoc(InSingles(w), ['\''], rest);
      Assoc(['\''], InSingles(w), ['\'']);
      SinglesAre(w, rest);
      SinglesBack(w, rest);
      WordSingle(SinglesThen(w, rest));
  }

  /** One token before a space or the end of the line. */
  lemma LexOne(t: Token, style: Style, rest: string)
    requires Printable(t, style) && (rest == [] || rest[0] == ' ')
    ensures Lex(Written(t, style) + rest) == Add(t, Lex(rest))
  {
    var s := Written(t, style) + rest;
    if t.kind == Word {
      QuoteBack(t.value, style, rest);
      assert !EndsWord(s);
    } else {
      assert Operator(s) == t.kind && s[|t.value|..] == rest;
    }
  }

  lemma LexSpace(rest: string)
    ensures Lex([' '] + rest) == Lex(rest)
  {
    Cons(' ', rest);
  }

  /** Every list of operators and words, each word written in any way that can hold it,
      lexes back to itself. */
  lemma {:induction false} RoundTrip(ts: seq<Token>, styles: seq<Style>)
    requires |ts| == |styles| && forall k :: 0 <= k < |ts| ==> Printable(ts[k], styles[k])
    ensures Lex(Line(ts, styles)) == Tokens(ts)
  {
    if ts != [] {
      RoundTrip(ts[1..], styles[1..]);
      assert ts == [ts[0]] + ts[1..];
      if |ts| == 1 {
        LexOne(ts[0], styles[0], []);
        assert Written(ts[0], styles[0]) + [] == Written(ts[0], styles[0]);
      } else {
        var more := Line(ts[1..], styles[1..]);
        LexOne(ts[0], styles[0], [' '] + more);
        LexSpace(more);
      }
    }
  }

  // ---- the lexer itself ----

  const WORDMAX := 1024

  /** The word in the buffer so far, and where the line has been read to, are what
      p says was read since the buffer held w. */
  ghost predicate Took(p: Piece, w: string, now: string, rest: string) {
    p.Piece? && now == w + p.text && rest == p.rest
  }

  /** backslash_quote at line[pos]; the word index stays behind the position. */
  method BackslashQuote(line: string, start: nat, word: array<char>, wpos: nat) returns (ok: bool, pos: nat, w: nat)
    requires start < |line| < WORDMAX == word.Length && line[start] == '\\' && wpos <= start
    modifies word
    ensures w <= pos <= |line| && (ok <==> Part(line[start..]).Piece?)
    ensures ok ==> Took(Part(line[start..]), old(word[..wpos]), word[..w], line[pos..])
  {
    pos, w := start + 1, wpos;
    if pos == |line| {
      return false, pos, w;
    }
    word[w] := line[pos];
    w := w + 1;
    pos := pos + 1;
    ok := true;
  }

  /** single_quote. */
  method SingleQuote(line: string, start: nat, word: array<char>, wpos: nat) returns (ok: bool, pos: nat, w: nat)
    requires start < |line| < WORDMAX == word.Length && line[start] == '\'' && wpos <= start
    modifies word
    ensures w <= pos <= |line| && (ok <==> Part(line[start..]).Piece?)
    ensures ok ==> Took(Part(line[start..]), old(word[..wpos]), word[..w], line[pos..])
  {
    pos, w := start + 1, wpos;
    ghost var acc: string := [];
    ghost var whole := SingleQuoted(line[pos..]);
    assert line[start..][1..] == line[pos..];
    while pos < |line|
      invariant start < pos <= |line| && w <= pos && word[..w] == old(word[..wpos]) + acc
      invariant whole == Prepend(acc, SingleQuoted(line[pos..]))
    {
      SingleStep(line, pos, whole, acc);
      if line[pos] == '\'' {
        pos := pos + 1;
        return true, pos, w;
      }
      acc := acc + [line[pos]];
      w := Put(word, w, line[pos]);
      pos := pos + 1;
    }
    assert line[pos..] == [];
    return false, pos, w;
  }

  lemma PrependMore(a: string, b: string, p: Piece)
    ensures Prepend(a, Prepend(b, p)) == Prepend(a + b, p)
  {
    if p.Piece? {
      Assoc(a, b, p.text);
    }
  }

  /** word[w++] = c. */
  method Put(word: array<char>, w: nat, c: char) returns (next: nat)
    requires w < word.Length
    modifies word
    ensures next == w + 1 && word[..next] == old(word[..w]) + [c]
  {
    word[w] := c;
    next := w + 1;
  }

  /** What double_quote does with a backslash before c. */
  method Unescape(c: char, word: array<char>, w: nat) returns (next: nat)
    requires w + 1 < word.Length
    modifies word
    ensures next <= w + 2 && word[..next] == old(word[..w]) + Escaped(c)
  {
    if c == '"' {
      next := Put(word, w, '"');
    } else if c == '\\' {
      next := Put(word, w, '\\');
    } else {
      next := Put(word, w, '\\');
      next := Put(word, next, c);
    }
  }

  /** double_quote's cases, at line[pos]. */
  lemma DoubleAt(line: string, pos: nat)
    requires pos < |line|
    ensures line[pos] == '"' ==> DoubleQuoted(line[pos..]) == Piece([], line[pos + 1..])
    ensures line[pos] == '\\' && pos + 1 == |line| ==> DoubleQuoted(line[pos..]) == Bad
    ensures line[pos] == '\\' && pos + 1 < |line| ==>
              DoubleQuoted(line[pos..]) == Prepend(Escaped(line[pos + 1]), DoubleQuoted(line[pos + 2..]))
    ensures line[pos] != '"' && line[pos] != '\\' ==>
              DoubleQuoted(line[pos..]) == Prepend([line[pos]], DoubleQuoted(line[pos + 1..]))
  {
    var s := line[pos..];
    assert s[1..] == line[pos + 1..];
    if pos + 1 < |line| {
      assert s[2..] == line[pos + 2..];
    }
  }

  /** The same for what double_quote has read so far, acc, of all it will read. */
  lemma DoubleStep(line: string, pos: nat, whole: Piece, acc: string)
    requires pos < |line| && whole == Prepend(acc, DoubleQuoted(line[pos..]))
    ensures line[pos] == '"' ==> whole == Piece(acc, line[pos + 1..])
    ensures line[pos] == '\\' && pos + 1 == |line| ==> whole == Bad
    ensures line[pos] == '\\' && pos + 1 < |line| ==>
              whole == Prepend(acc + Escaped(line[pos + 1]), DoubleQuoted(line[pos + 2..]))
    ensures line[pos] != '"' && line[pos] != '\\' ==> whole == Prepend(acc + [line[pos]], DoubleQuoted(line[pos + 1..]))
  {
    DoubleAt(line, pos);
    PrependMore(acc, [line[pos]], DoubleQuoted(line[pos + 1..]));
    if pos + 1 < |line| {
      PrependMore(acc, Escaped(line[pos + 1]), DoubleQuoted(line[pos + 2..]));
    }
  }

  lemma SingleStep(line: string, pos: nat, whole: Piece, acc: string)
    requires pos < |line| && whole == Prepend(acc, SingleQuoted(line[pos..]))
    ensures line[pos] == '\'' ==> whole == Piece(acc, line[pos + 1..])
    ensures line[pos] != '\'' ==> whole == Prepend(acc + [line[pos]], SingleQuoted(line[pos + 1..]))
  {
    assert line[pos..][1..] == line[pos + 1..];
    PrependMore(acc, [line[pos]], SingleQuoted(line[pos + 1..]));
  }

  /** double_quote. */
  method DoubleQuote(line: string, start: nat, word: array<char>, wpos: nat) returns (ok: bool, pos: nat, w: nat)
    requires start < |line| < WORDMAX == word.Length && line[start] == '"' && wpos <= start
    modifies word
    ensures w <= pos <= |line| && (ok <==> Part(line[start..]).Piece?)
    ensures ok ==> Took(Part(line[start..]), old(word[..wpos]), word[..w], line[pos..])
  {
    pos, w := start + 1, wpos;
    ghost var acc: string := [];
    ghost var whole := DoubleQuoted(line[pos..]);
    assert line[start..][1..] == line[pos..];
    while pos < |line|
      invariant start < pos <= |line| && w <= pos && word[..w] == old(word[..wpos]) + acc
      invariant whole == Prepend(acc, DoubleQuoted(line[pos..]))
    {
      DoubleStep(line, pos, whole, acc);
      if line[pos] == '"' {
        pos := pos + 1;
        return true, pos, w;
      }
      if line[pos] == '\\' && pos + 1 == |line| {
        return false, pos, w;
      }
      pos, w, acc := DoubleNext(line, pos, word, w, whole, old(word[..wpos]), acc);
    }
    assert line[pos..] == [];
    return false, pos, w;
  }

  /** One round of double_quote that does not end it. */
  method DoubleNext(line: string, at: nat, word: array<char>, from: nat, ghost whole: Piece, ghost before: string,
                    ghost acc: string)
    returns (pos: nat, w: nat, ghost more: string)
    requires at < |line| < WORDMAX == word.Length && from <= at && word[..from] == before + acc
    requires whole == Prepend(acc, DoubleQuoted(line[at..]))
             && line[at] != '"' && (line[at] == '\\' ==> at + 1 < |line|)
    modifies word
    ensures at < pos <= |line| && w <= pos && word[..w] == before + more
            && whole == Prepend(more, DoubleQuoted(line[pos..]))
  {
    DoubleStep(line, at, whole, acc);
    if line[at] == '\\' {
      w := Unescape(line[at + 1], word, from);
      more := acc + Escaped(line[at + 1]);
      pos := at + 2;
    } else {
      w := Put(word, from, line[at]);
      more := acc + [line[at]];
      pos := at + 1;
    }
  }

  /** One step of a word, quoted or plain. */
  method ReadPart(line: string, start: nat, word: array<char>, wpos: nat) returns (ok: bool, pos: nat, w: nat)
    requires start < |line| < WORDMAX == word.Length && wpos <= start
    modifies word
    ensures w <= pos <= |line| && (ok <==> Part(line[start..]).Piece?)
    ensures ok ==> Took(Part(line[start..]), old(word[..wpos]), word[..w], line[pos..])
  {
    if line[start] == '\\' {
      ok, pos, w := BackslashQuote(line, start, word, wpos);
    } else if line[start] == '"' {
      ok, pos, w := DoubleQuote(line, start, word, wpos);
    } else if line[start] == '\'' {
      ok, pos, w := SingleQuote(line, start, word, wpos);
    } else {
      w := Put(word, wpos, line[start]);
      ok, pos := true, start + 1;
    }
  }

  /** The inner loop of lexing: a word into the buffer, which it never overruns. */
  method ReadWord(line: string, start: nat, word: array<char>) returns (ok: bool, pos: nat, w: nat)
    requires start < |line| < WORDMAX == word.Length && !EndsWord(line[start..])
    modifies word
    ensures w <= pos <= |line| && (ok <==> WordOf(line[start..]).Piece?)
    ensures ok ==> start < pos && Took(WordOf(line[start..]), [], word[..w], line[pos..])
  {
    ok, pos, w := true, start, 0;
    ghost var whole := WordOf(line[start..]);
    assert word[..w] == [];
    while pos < |line| && !IsSpace(line[pos]) && !IsSpecial(line[pos])
      invariant start <= pos <= |line| && w <= pos && whole == Prepend(word[..w], WordOf(line[pos..]))
    {
      ghost var acc, at := word[..w], pos;
      ok, pos, w := ReadPart(line, pos, word, w);
      WordStep(line[at..], whole, acc);
      if !ok {
        return;
      }
      assert |line[pos..]| < |line[at..]|;
    }
    assert EndsWord(line[pos..]);
    assert word[..w] + [] == word[..w];
  }

  lemma WordStep(s: string, whole: Piece, acc: string)
    requires !EndsWord(s) && whole == Prepend(acc, WordOf(s))
    ensures whole == if Part(s).Bad? then Bad else Prepend(acc + Part(s).text, WordOf(Part(s).rest))
  {
    if Part(s).Piece? {
      PrependMore(acc, Part(s).text, WordOf(Part(s).rest));
    }
  }

  function AddAll(ts: seq<Token>, l: Lexed): Lexed {
    match l
    case Invalid => Invalid
    case Tokens(more) => Tokens(ts + more)
  }

  lemma AddMore(ts: seq<Token>, t: Token, l: Lexed)
    ensures AddAll(ts, Add(t, l)) == AddAll(ts + [t], l)
  {
    if l.Tokens? {
      assert ts + ([t] + l.tokens) == ts + [t] + l.tokens;
    }
  }

  /** lexing: the tokens of a line that fits the shell's input buffer. */
  method Lexing(line: string) returns (ok: bool, tokens: seq<Token>)
    requires |line| < WORDMAX
    ensures Lex(line) == if ok then Tokens(tokens) else Invalid
  {
    var pos := 0;
    ok, tokens := true, [];
    ghost var whole := Lex(line);
    assert line[pos..] == line;
    while pos < |line|
      invariant 0 <= pos <= |line| && ok && whole == AddAll(tokens, Lex(line[pos..]))
      decreases |line| - pos
    {
      ok, pos, tokens := NextToken(line, pos, tokens, whole);
      if !ok {
        return;
      }
    }
    assert line[pos..] == [];
  }

  /** One round of lexing's loop: a space, an operator or a word. */
  method NextToken(line: string, at: nat, before: seq<Token>, ghost whole: Lexed)
    returns (ok: bool, pos: nat, tokens: seq<Token>)
    requires at < |line| < WORDMAX && whole == AddAll(before, Lex(line[at..]))
    ensures ok ==> at < pos <= |line| && whole == AddAll(tokens, Lex(line[pos..]))
    ensures !ok ==> whole == Invalid
  {
    LexAt(line, at, whole, before);
    ok, tokens := true, before;
    if IsSpace(line[at]) {
      pos := at + 1;
    } else if IsSpecial(line[at]) {
      var k := Operator(line[at..]);
      tokens := before + [Token(k, Spelling(k))];
      pos := at + |Spelling(k)|;
    } else {
      var word := new char[WORDMAX];
      var w;
      ok, pos, w := ReadWord(line, at, word);
      assert ok ==> word[..w] == WordOf(line[at..]).text;
      tokens := before + [Token(Word, word[..w])];
    }
  }

  /** lexing's cases, at line[pos], with ts read before. */
  lemma LexAt(line: string, pos: nat, whole: Lexed, ts: seq<Token>)
    requires pos < |line| && whole == AddAll(ts, Lex(line[pos..]))
    ensures IsSpace(line[pos]) ==> whole == AddAll(ts, Lex(line[pos + 1..]))
    ensures !IsSpace(line[pos]) && IsSpecial(line[pos]) ==>
              var k := Operator(line[pos..]);
              pos + |Spelling(k)| <= |line|
                && whole == AddAll(ts + [Token(k, Spelling(k))], Lex(line[pos + |Spelling(k)|..]))
    ensures !EndsWord(line[pos..]) ==>
              match WordOf(line[pos..])
              case Bad => whole == Invalid
              case Piece(text, rest) => whole == AddAll(ts + [Token(Word, text)], Lex(rest))
  {
    var s := line[pos..];
    if IsSpace(line[pos]) {
      assert s[1..] == line[pos + 1..];
    } else if IsSpecial(line[pos]) {
      var k := Operator(s);
      assert s[|Spelling(k)|..] == line[pos + |Spelling(k)|..];
      AddMore(ts, Token(k, Spelling(k)), Lex(line[pos + |Spelling(k)|..]));
    } else if WordOf(s).Piece? {
      AddMore(ts, Token(Word, WordOf(s).text), Lex(WordOf(s).rest));
    }
  }
}
