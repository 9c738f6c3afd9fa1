/**
  The nginx configuration reader: tokenizer and recursive statement parser, each a loop proved equal to a
  recursive specification.
 */
module NginxSyntax {
  import opened Text

  datatype Token = Token(text: string, line: nat)

  // A directive ended by ";", or one with a block.
  datatype Statement =
    | Simple(name: string, args: seq<string>, line: nat)
    | Block(name: string, args: seq<string>, line: nat, inner: seq<Statement>)

  predicate IsPunctuation(c: char) {
    c == '{' || c == '}' || c == ';'
  }

  predicate IsQuote(c: char) {
    c == '"' || c == '\''
  }

  // ---- Tokens ----

  // Length of a comment: up to, not including, the end of the line.
  function CommentLength(s: string): (k: nat)
    ensures k <= |s|
  {
    if s == "" || s[0] == '\n' then 0 else 1 + CommentLength(s[1..])
  }

  predicate EndsWord(c: char) {
    IsSpace(c) || IsPunctuation(c) || c == '#'
  }

  function WordLength(s: string): (k: nat)
    ensures k <= |s|
  {
    if s == "" || EndsWord(s[0]) then 0 else 1 + WordLength(s[1..])
  }

  datatype QuotedText = QuotedText(text: string, rest: string, line: nat)

  // The text up to the closing quote `q`, a backslash standing for the character after it.
  function Quoted(s: string, q: char, line: nat): (r: QuotedText)
    ensures |r.rest| <= |s|
    decreases |s|
  {
    if s == "" then QuotedText("", "", line)
    else if s[0] == q then QuotedText("", s[1..], line)
    else
      var k := if s[0] == '\\' && |s| > 1 then 1 else 0;
      var r := Quoted(s[k + 1..], q, if s[k] == '\n' then line + 1 else line);
      r.(text := [s[k]] + r.text)
  }

  function Tokens(s: string, line: nat): seq<Token>
    decreases |s|
  {
    if s == "" then []
    else
      var c := s[0];
      if c == '\n' then Tokens(s[1..], line + 1)
      else if IsSpace(c) then Tokens(s[1..], line)
      else if c == '#' then Tokens(s[CommentLength(s)..], line)
      else if IsPunctuation(c) then [Token([c], line)] + Tokens(s[1..], line)
      else if IsQuote(c) then
        var r := Quoted(s[1..], c, line);
        [Token(r.text, r.line)] + Tokens(r.rest, r.line)
      else
        var k := WordLength(s);
        [Token(s[..k], line)] + Tokens(s[k..], line)
  }

  // The rest of the text from index i, which the loop may leave one past the end.
  function From(s: string, i: nat): string {
    if i <= |s| then s[i..] else ""
  }

  method ScanComment(text: string, start: nat) returns (i: nat)
    requires start <= |text|
    ensures start <= i <= |text| && i == start + CommentLength(text[start..])
    ensures start < |text| && text[start] != '\n' ==> i > start
  {
    i := start;
    while i < |text| && text[i] != '\n'
      invariant start <= i <= |text|
      invariant i + CommentLength(text[i..]) == start + CommentLength(text[start..])
    {
      assert text[i..][1..] == text[i + 1..];
      i := i + 1;
    }
  }

  method ScanWord(text: string, start: nat) returns (j: nat)
    requires start <= |text|
    ensures j <= |text| && j == start + WordLength(text[start..])
  {
    j := start;
    while j < |text| && !EndsWord(text[j])
      invariant start <= j <= |text|
      invariant j + WordLength(text[j..]) == start + WordLength(text[start..])
    {
      assert text[j..][1..] == text[j + 1..];
      j := j + 1;
    }
  }

  // How far the character at j and its backslash reach.
  function QuotedStep(text: string, j: nat): nat
    requires j < |text|
  {
    if text[j] == '\\' && j + 1 < |text| then j + 1 else j
  }

  lemma {:induction false} QuotedUnfolds(text: string, j: nat, q: char, line: nat)
    requires j <= |text|
    ensures j == |text| ==> Quoted(text[j..], q, line) == QuotedText("", "", line)
    ensures j < |text| && text[j] == q ==> Quoted(text[j..], q, line) == QuotedText("", text[j + 1..], line)
    ensures j < |text| && text[j] != q ==>
              var k := QuotedStep(text, j);
              var r := Quoted(text[k + 1..], q, if text[k] == '\n' then line + 1 else line);
              Quoted(text[j..], q, line) == WithText([text[k]], r)
  {
    if j < |text| {
      var s := text[j..];
      assert s[1..] == text[j + 1..];
      if j + 1 < |text| {
        assert s[2..] == text[j + 2..];
      }
    }
  }

  function WithText(buf: string, r: QuotedText): QuotedText {
    r.(text := buf + r.text)
  }

  lemma {:induction false} WithTextTwice(a: string, c: char, r: QuotedText)
    ensures WithText(a, WithText([c], r)) == WithText(a + [c], r)
  {
    Snoc(a, c, r.text);
  }

  method ScanQuoted(text: string, start: nat, q: char, line0: nat) returns (buf: string, i: nat, line: nat)
    requires start <= |text|
    ensures start < i <= |text| + 1
    ensures Quoted(text[start..], q, line0) == QuotedText(buf, From(text, i), line)
  {
    hide Quoted, WithText;
    var j := start;
    buf, line := "", line0;
    WithNothing(Quoted(text[start..], q, line0));
    while j < |text| && text[j] != q
      invariant start <= j <= |text|
      invariant Quoted(text[start..], q, line0) == WithText(buf, Quoted(text[j..], q, line))
    {
      QuotedUnfolds(text, j, q, line);
      if text[j] == '\\' && j + 1 < |text| {
        j := j + 1;
      }
      if text[j] == '\n' {
        line := line + 1;
      }
      WithTextTwice(buf, text[j], Quoted(text[j + 1..], q, line));
      buf := buf + [text[j]];
      j := j + 1;
    }
    QuotedEnds(text, j, q, line, buf);
    i := j + 1;
  }

  lemma {:induction false} WithNothing(r: QuotedText)
    ensures WithText("", r) == r
  {
    assert "" + r.text == r.text;
  }

  lemma {:induction false} QuotedEnds(text: string, j: nat, q: char, line: nat, buf: string)
    requires j <= |text| && (j < |text| ==> text[j] == q)
    ensures WithText(buf, Quoted(text[j..], q, line)) == QuotedText(buf, From(text, j + 1), line)
  {
    QuotedUnfolds(text, j, q, line);
    assert buf + "" == buf;
  }

  // A turn of the tokenizer at index i that yields nothing: where it goes on and on what line.
  lemma {:induction false} SkipUnfolds(text: string, i: nat, line: nat)
    requires i < |text| && (IsSpace(text[i]) || text[i] == '#')
    ensures var c, here := text[i], Tokens(text[i..], line);
            && (c == '\n' ==> here == Tokens(text[i + 1..], line + 1))
            && (c != '\n' && IsSpace(c) ==> here == Tokens(text[i + 1..], line))
            && (c == '#' ==> here == Tokens(text[i + CommentLength(text[i..])..], line))
  {
    hide CommentLength;
    SplitAt(text, i, 1);
    SplitAt(text, i, CommentLength(text[i..]));
  }

  lemma {:induction false} QuoteUnfolds(text: string, i: nat, line: nat)
    requires i < |text| && IsQuote(text[i])
    ensures var r := Quoted(text[i + 1..], text[i], line);
            Tokens(text[i..], line) == [Token(r.text, r.line)] + Tokens(r.rest, r.line)
  {
    hide Quoted;
    SplitAt(text, i, 1);
  }

  lemma {:induction false} WordIs(s: string, line: nat)
    requires s != "" && !IsQuote(s[0]) && !IsSpace(s[0]) && s[0] != '#'
    ensures var k := if IsPunctuation(s[0]) then 1 else WordLength(s);
            k > 0 && Tokens(s, line) == [Token(s[..k], line)] + Tokens(s[k..], line)
  {
    WordsAreLong(s);
    hide WordLength, IsSpace;
    assert s[..1] == [s[0]];
  }

  lemma {:induction false} WordUnfolds(text: string, i: nat, line: nat)
    requires i < |text| && !IsQuote(text[i]) && !IsSpace(text[i]) && text[i] != '#'
    ensures var j := if IsPunctuation(text[i]) then i + 1 else i + WordLength(text[i..]);
            j > i && Tokens(text[i..], line) == [Token(text[i..j], line)] + Tokens(text[j..], line)
  {
    hide Tokens, WordLength, IsSpace, IsPunctuation;
    WordIs(text[i..], line);
    SplitAt(text, i, if IsPunctuation(text[i]) then 1 else WordLength(text[i..]));
  }

  lemma {:induction false} WordsAreLong(s: string)
    requires s != ""
    ensures EndsWord(s[0]) <==> WordLength(s) == 0
  {
    hide EndsWord;
  }

  lemma {:induction false} SplitAt(text: string, i: nat, k: nat)
    requires i + k <= |text|
    ensures text[i..][..k] == text[i..i + k] && text[i..][k..] == text[i + k..]
  {
  }

  /** The tokenizer loop. */
  method NginxTokens(text: string) returns (toks: seq<Token>)
    ensures toks == Tokens(text, 1)
  {
    hide Tokens;
    toks := [];
    var i, line := 0, 1;
    assert text[0..] == text;
    while i < |text|
      invariant i <= |text| + 1
      invariant toks + Tokens(From(text, i), line) == Tokens(text, 1)
      decreases |text| + 1 - i
    {
      var yielded;
      yielded, i, line := Turn(text, i, line);
      toks := toks + yielded;
    }
    NoTokens(text, i, line);
    assert toks + [] == toks;
  }

  /** One turn of the loop: at most one token. */
  method Turn(text: string, i0: nat, line0: nat) returns (yielded: seq<Token>, i: nat, line: nat)
    requires i0 < |text|
    ensures i0 < i <= |text| + 1 && |yielded| <= 1
    ensures Tokens(text[i0..], line0) == yielded + Tokens(From(text, i), line)
  {
    hide Tokens, Quoted, WordLength, CommentLength;
    var c := text[i0];
    yielded, i, line := [], i0 + 1, line0;
    if c == '\n' || IsSpace(c) || c == '#' {
      SkipUnfolds(text, i0, line0);
      hide IsSpace;
      if c == '\n' {
        line := line0 + 1;
      } else if c == '#' {
        i := ScanComment(text, i0);
      }
    } else if IsQuote(c) {
      QuoteUnfolds(text, i0, line0);
      var buf;
      buf, i, line := ScanQuoted(text, i0 + 1, c, line0);
      yielded := [Token(buf, line)];
    } else {
      WordUnfolds(text, i0, line0);
      if !IsPunctuation(c) {
        i := ScanWord(text, i0);
      }
      yielded := [Token(text[i0..i], line0)];
    }
  }

  lemma {:induction false} Snoc<T>(a: seq<T>, x: T, b: seq<T>)
    ensures a + ([x] + b) == (a + [x]) + b
  {
  }

  lemma {:induction false} NoTokens(text: string, i: nat, line: nat)
    requires i >= |text|
    ensures Tokens(From(text, i), line) == []
  {
    assert From(text, i) == "";
  }

  // ---- Statements ----

  function Texts(toks: seq<Token>): seq<string> {
    if toks == [] then [] else [toks[0].text] + Texts(toks[1..])
  }

  // The statement the words `cur` make, if there are any.
  function SimpleOf(cur: seq<Token>): seq<Statement> {
    if cur == [] then [] else [Simple(cur[0].text, Texts(cur[1..]), cur[0].line)]
  }

  function BlockOf(cur: seq<Token>, inner: seq<Statement>): seq<Statement> {
    if cur == [] then [] else [Block(cur[0].text, Texts(cur[1..]), cur[0].line, inner)]
  }

  datatype Parsed = Parsed(out: seq<Statement>, rest: seq<Token>)

  function Prepend(out: seq<Statement>, p: Parsed): Parsed {
    p.(out := out + p.out)
  }

  // Statements up to the "}" that closes the enclosing block, with `cur` the words of the current one.
  function Statements(toks: seq<Token>, cur: seq<Token>): (p: Parsed)
    ensures |p.rest| <= |toks|
    decreases |toks|
  {
    if toks == [] then Parsed([], [])
    else
      var tok, rest := toks[0], toks[1..];
      if tok.text == ";" then Prepend(SimpleOf(cur), Statements(rest, []))
      else if tok.text == "{" then
        var inner := Statements(rest, []);
        Prepend(BlockOf(cur, inner.out), Statements(inner.rest, []))
      else if tok.text == "}" then Parsed([], rest)
      else Statements(rest, cur + [tok])
  }

  /** The recursive statement parser; `next` is the position it returns. */
  method NginxStatements(toks: seq<Token>, start: nat) returns (out: seq<Statement>, next: nat)
    requires start <= |toks|
    ensures start <= next <= |toks|
    ensures Statements(toks[start..], []) == Parsed(out, toks[next..])
    decreases |toks| - start
  {
    hide Statements, SimpleOf, BlockOf, Prepend;
    var pos := start;
    var cur: seq<Token> := [];
    out := [];
    PrependNothing(Statements(toks[start..], []));
    while pos < |toks|
      invariant start <= pos <= |toks|
      invariant Statements(toks[start..], []) == Prepend(out, Statements(toks[pos..], cur))
    {
      var tok := toks[pos];
      StatementsUnfold(toks, pos, cur);
      PrependNothing(Parsed(out, toks[pos + 1..]));
      if tok.text == ";" {
        PrependTwice(out, SimpleOf(cur), Statements(toks[pos + 1..], []));
        out := out + SimpleOf(cur);
        cur := [];
        pos := pos + 1;
      } else if tok.text == "{" {
        var block;
        block, pos := NginxStatements(toks, pos + 1);
        PrependTwice(out, BlockOf(cur, block), Statements(toks[pos..], []));
        out := out + BlockOf(cur, block);
        cur := [];
      } else if tok.text == "}" {
        return out, pos + 1;
      } else {
        cur := cur + [tok];
        pos := pos + 1;
      }
    }
    StatementsEnd(cur);
    PrependNothing(Parsed(out, []));
    assert toks[pos..] == [];
    next := pos;
  }

  lemma {:induction false} StatementsUnfold(toks: seq<Token>, pos: nat, cur: seq<Token>)
    requires pos < |toks|
    ensures var text, here, rest := toks[pos].text, Statements(toks[pos..], cur), toks[pos + 1..];
            && (text == ";" ==> here == Prepend(SimpleOf(cur), Statements(rest, [])))
            && (text == "{" ==> var inner := Statements(rest, []);
                                here == Prepend(BlockOf(cur, inner.out), Statements(inner.rest, [])))
            && (text == "}" ==> here == Parsed([], rest))
            && (text != ";" && text != "{" && text != "}" ==> here == Statements(rest, cur + [toks[pos]]))
  {
    hide SimpleOf, BlockOf, Prepend;
    assert toks[pos..][1..] == toks[pos + 1..];
  }

  lemma {:induction false} StatementsEnd(cur: seq<Token>)
    ensures Statements([], cur) == Parsed([], [])
  {
  }

  lemma {:induction false} PrependNothing(p: Parsed)
    ensures Prepend([], p) == p && Prepend(p.out, Parsed([], p.rest)) == p
  {
    assert p.out + [] == p.out == [] + p.out;
  }

  lemma {:induction false} PrependTwice(a: seq<Statement>, b: seq<Statement>, p: Parsed)
    ensures Prepend(a, Prepend(b, p)) == Prepend(a + b, p)
  {
    assert a + (b + p.out) == (a + b) + p.out;
  }
}
