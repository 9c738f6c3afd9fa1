/** Reading back an nginx configuration, however it is spelled. */
module NginxRoundTrip {
  import opened Text
  import opened NginxSyntax
  import opened NginxSpelling

  // A statement without its line number.
  datatype Tree =
    | Leaf(name: string, args: seq<string>)
    | Node(name: string, args: seq<string>, inner: seq<Tree>)

  function Forget(s: Statement): Tree
    decreases s
  {
    match s
    case Simple(name, args, _) => Leaf(name, args)
    case Block(name, args, _, inner) => Node(name, args, ForgetAll(inner))
  }

  function ForgetAll(ss: seq<Statement>): seq<Tree>
    decreases ss
  {
    if ss == [] then [] else [Forget(ss[0])] + ForgetAll(ss[1..])
  }

  // The token texts of a tree.
  function FlatTree(t: Tree): seq<string>
    decreases t
  {
    [t.name] + t.args + match t case Leaf(_, _) => [";"] case Node(_, _, inner) => ["{"] + Flat(inner) + ["}"]
  }

  function Flat(ts: seq<Tree>): seq<string>
    decreases ts
  {
    if ts == [] then [] else FlatTree(ts[0]) + Flat(ts[1..])
  }

  // ---- A spelling for every tree ----

  function Escape(w: string): seq<Unit> {
    if w == "" then [] else [Escaped(w[0])] + Escape(w[1..])
  }

  // One way to spell these token texts: punctuation bare, all else quoted.
  function Spelling(ws: seq<string>): seq<Piece> {
    if ws == [] then []
    else [if IsPunctuationText(ws[0]) then Mark(ws[0][0]) else Quote('"', Escape(ws[0]), true)] + Spelling(ws[1..])
  }

  lemma {:induction false} EscapeIs(w: string)
    ensures UnitText(Escape(w)) == w && ProperUnits('"', Escape(w), true)
  {
    if w != "" {
      EscapeIs(w[1..]);
    }
  }

  lemma {:induction false} SpellingIs(ws: seq<string>)
    ensures WellSpelled(Spelling(ws)) && Words(Spelling(ws)) == ws
  {
    if ws != [] {
      hide UnitText, ProperUnits, Escape;
      EscapeIs(ws[0]);
      SpellingIs(ws[1..]);
      assert IsPunctuationText(ws[0]) ==> ws[0] == [ws[0][0]];
      assert Spelling(ws)[1..] == Spelling(ws[1..]);
    }
  }

  // ---- Parsing the tokens back ----

  predicate IsPunctuationText(w: string) {
    w == "{" || w == "}" || w == ";"
  }

  ghost predicate CleanWords(ws: seq<string>) {
    forall i | 0 <= i < |ws| :: !IsPunctuationText(ws[i])
  }

  ghost predicate CleanTree(t: Tree)
    decreases t
  {
    CleanWords([t.name] + t.args) && (t.Node? ==> Clean(t.inner))
  }

  // No name and no argument is exactly "{", "}" or ";".
  ghost predicate Clean(ts: seq<Tree>)
    decreases ts
  {
    ts == [] || (CleanTree(ts[0]) && Clean(ts[1..]))
  }

  lemma {:induction false} TextsAt(toks: seq<Token>, k: nat)
    requires k <= |toks|
    ensures |Texts(toks)| == |toks|
    ensures k < |toks| ==> Texts(toks)[k] == toks[k].text
    ensures Texts(toks[k..]) == Texts(toks)[k..] && Texts(toks[..k]) == Texts(toks)[..k]
    decreases |toks|
  {
    if toks != [] {
      if k > 0 {
        TextsAt(toks[1..], k - 1);
        assert toks[k..] == toks[1..][k - 1..];
        assert toks[..k] == [toks[0]] + toks[1..][..k - 1];
        assert toks[..k][1..] == toks[1..][..k - 1];
      } else {
        TextsAt(toks[1..], 0);
        assert toks[0..] == toks;
      }
    }
  }

  // Words go to the current statement.
  lemma {:induction false} ParseWords(toks: seq<Token>, cur: seq<Token>, n: nat)
    requires n <= |toks| && forall i | 0 <= i < n :: !IsPunctuationText(toks[i].text)
    ensures Statements(toks, cur) == Statements(toks[n..], cur + toks[..n])
    decreases n
  {
    if n == 0 {
      assert toks[0..] == toks && cur + toks[..0] == cur;
    } else {
      ParseWords(toks[1..], cur + [toks[0]], n - 1);
      assert toks[1..][n - 1..] == toks[n..];
      assert cur + [toks[0]] + toks[1..][..n - 1] == cur + toks[..n];
    }
  }

  // The words `ws` at the front of the tokens become the current statement.
  lemma {:induction false} ParseFront(toks: seq<Token>, ws: seq<string>, after: seq<string>)
    requires ws != [] && CleanWords(ws) && Texts(toks) == ws + after
    ensures var n := |ws|;
            && n <= |toks| == n + |after|
            && Statements(toks, []) == Statements(toks[n..], toks[..n])
            && toks[0].text == ws[0] && Texts(toks[..n][1..]) == ws[1..] && Texts(toks[n..]) == after
  {
    hide Statements;
    var n := |ws|;
    TextsAt(toks, 0);
    TextsAt(toks, n);
    forall i | 0 <= i < n ensures toks[i].text == ws[i] {
      TextsAt(toks, i);
    }
    ParseWords(toks, [], n);
    assert [] + toks[..n] == toks[..n];
    TextsAt(toks[..n], 1);
  }

  // Statements read from `toks` are `ts`, then what is read from `more`.
  ghost predicate ReadsThen(toks: seq<Token>, ts: seq<Tree>, more: seq<Token>) {
    var p, q := Statements(toks, []), Statements(more, []);
    ForgetAll(p.out) == ts + ForgetAll(q.out) && p.rest == q.rest
  }

  lemma {:induction false} ParseLeaf(t: Tree, toks: seq<Token>, after: seq<string>)
    requires t.Leaf? && CleanTree(t) && Texts(toks) == FlatTree(t) + after
    ensures |FlatTree(t)| <= |toks| && ReadsThen(toks, [t], toks[|FlatTree(t)|..])
    ensures Texts(toks[|FlatTree(t)|..]) == after
  {
    var ws := [t.name] + t.args;
    assert FlatTree(t) + after == ws + ([";"] + after);
    ParseFront(toks, ws, [";"] + after);
    var n := |ws|;
    assert toks[n..][1..] == toks[n + 1..];
    TextsAt(toks[n..], 0);
    TextsAt(toks[n..], 1);
    assert ws[1..] == t.args;
    var q := Statements(toks[n + 1..], []);
    var s := Simple(t.name, t.args, toks[0].line);
    assert ([s] + q.out)[1..] == q.out;
  }

  lemma {:induction false} ParseTree(t: Tree, toks: seq<Token>, after: seq<string>)
    requires CleanTree(t) && Texts(toks) == FlatTree(t) + after
    ensures |FlatTree(t)| <= |toks| && ReadsThen(toks, [t], toks[|FlatTree(t)|..])
    ensures Texts(toks[|FlatTree(t)|..]) == after
    decreases t
  {
    match t
    case Leaf(_, _) => ParseLeaf(t, toks, after);
    case Node(_, _, inner) =>
      var ws := [t.name] + t.args;
      var closed := ["}"] + after;
      assert FlatTree(t) + after == ws + (["{"] + (Flat(inner) + closed));
      ParseFront(toks, ws, ["{"] + (Flat(inner) + closed));
      var n := |ws|;
      TextsAt(toks[n..], 0);
      TextsAt(toks[n..], 1);
      var body := toks[n..][1..];
      assert Texts(body) == Flat(inner) + closed;
      ParseAll(inner, body, closed);
      var end := body[|Flat(inner)|..];
      TextsAt(end, 0);
      TextsAt(end, 1);
      assert end[1..] == toks[|FlatTree(t)|..];
      assert ws[1..] == t.args;
      ParseNode(t, toks, n, body, end);
  }

  lemma {:induction false} ParseNode(t: Tree, toks: seq<Token>, n: nat, body: seq<Token>, end: seq<Token>)
    requires t.Node? && 0 < n < |toks| && toks[n].text == "{" && body == toks[n..][1..]
    requires Statements(toks, []) == Statements(toks[n..], toks[..n])
    requires toks[0].text == t.name && Texts(toks[..n][1..]) == t.args
    requires end != [] && end[0].text == "}"
    requires ReadsThen(body, t.inner, end)
    ensures ReadsThen(toks, [t], end[1..])
  {
    assert Statements(end, []) == Parsed([], end[1..]);
    var inner := Statements(body, []);
    assert ForgetAll(inner.out) == t.inner + [] == t.inner;
    var q := Statements(end[1..], []);
    var s := Block(t.name, t.args, toks[0].line, inner.out);
    assert Statements(toks[n..], toks[..n]) == Prepend([s], q);
    assert ([s] + q.out)[1..] == q.out;
  }

  lemma {:induction false} ParseAll(ts: seq<Tree>, toks: seq<Token>, after: seq<string>)
    requires Clean(ts) && Texts(toks) == Flat(ts) + after
    ensures |Flat(ts)| <= |toks| && ReadsThen(toks, ts, toks[|Flat(ts)|..])
    ensures Texts(toks[|Flat(ts)|..]) == after
    decreases ts
  {
    hide FlatTree, CleanTree, ReadsThen, Texts;
    if ts == [] {
      assert toks[0..] == toks && [] + after == after;
      ReadsNothing(toks);
    } else {
      var after1 := Flat(ts[1..]) + after;
      assert Flat(ts) + after == FlatTree(ts[0]) + after1;
      ParseTree(ts[0], toks, after1);
      var toks1 := toks[|FlatTree(ts[0])|..];
      ParseAll(ts[1..], toks1, after);
      assert toks1[|Flat(ts[1..])|..] == toks[|Flat(ts)|..];
      assert ts == [ts[0]] + ts[1..];
      ReadsBoth(toks, [ts[0]], toks1, ts[1..], toks[|Flat(ts)|..]);
    }
  }

  lemma {:induction false} ReadsNothing(toks: seq<Token>)
    ensures ReadsThen(toks, [], toks)
  {
    hide Statements;
    var out := ForgetAll(Statements(toks, []).out);
    assert [] + out == out;
  }

  lemma {:induction false} ReadsBoth(toks: seq<Token>, a: seq<Tree>, mid: seq<Token>, b: seq<Tree>, end: seq<Token>)
    requires ReadsThen(toks, a, mid) && ReadsThen(mid, b, end)
    ensures ReadsThen(toks, a + b, end)
  {
    hide Statements;
    var out := ForgetAll(Statements(end, []).out);
    assert a + (b + out) == (a + b) + out;
  }

  // ---- Nothing parsed is punctuation ----

  ghost predicate CleanTokens(toks: seq<Token>) {
    forall i | 0 <= i < |toks| :: !IsPunctuationText(toks[i].text)
  }

  lemma {:induction false} CleanAppend(a: seq<Tree>, b: seq<Tree>)
    requires Clean(a) && Clean(b)
    ensures Clean(a + b)
    decreases |a|
  {
    if a == [] {
      assert a + b == b;
    } else {
      CleanAppend(a[1..], b);
      assert (a + b)[1..] == a[1..] + b;
    }
  }

  lemma {:induction false} TextsClean(toks: seq<Token>)
    requires CleanTokens(toks) && toks != []
    ensures CleanWords([toks[0].text] + Texts(toks[1..]))
  {
    TextsAt(toks, 0);
    forall i | 0 <= i < |toks| ensures Texts(toks)[i] == toks[i].text {
      TextsAt(toks, i);
    }
    assert Texts(toks) == [toks[0].text] + Texts(toks[1..]);
  }

  /** Whatever the tokens, no parsed name or argument is "{", "}" or ";". */
  lemma {:induction false} ParsedIsClean(toks: seq<Token>, cur: seq<Token>)
    requires CleanTokens(cur)
    ensures Clean(ForgetAll(Statements(toks, cur).out))
    decreases |toks|
  {
    if toks != [] {
      var tok, rest := toks[0], toks[1..];
      if cur != [] {
        TextsClean(cur);
      }
      if tok.text == ";" {
        ParsedIsClean(rest, []);
        var q := Statements(rest, []);
        assert (SimpleOf(cur) + q.out)[|SimpleOf(cur)|..] == q.out;
        assert SimpleOf(cur) == [] ==> SimpleOf(cur) + q.out == q.out;
      } else if tok.text == "{" {
        ParsedIsClean(rest, []);
        var inner := Statements(rest, []);
        ParsedIsClean(inner.rest, []);
        var q := Statements(inner.rest, []);
        assert (BlockOf(cur, inner.out) + q.out)[|BlockOf(cur, inner.out)|..] == q.out;
        assert BlockOf(cur, inner.out) == [] ==> BlockOf(cur, inner.out) + q.out == q.out;
      } else if tok.text != "}" {
        ParsedIsClean(rest, cur + [tok]);
      }
    }
  }

  // ---- Where statements come from ----

  // Token k is the first word of a statement: a word, and first of all or behind punctuation.
  predicate Opens(all: seq<Token>, k: nat) {
    k < |all| && !IsPunctuationText(all[k].text) && (k == 0 || IsPunctuationText(all[k - 1].text))
  }

  // The statement has its name and line from such a token, and its arguments from those up to the punctuation.
  ghost predicate From1(s: Statement, all: seq<Token>) {
    exists k: nat | Opens(all, k) ::
      && all[k] == Token(s.name, s.line)
      && var end := k + 1 + |s.args|;
      && end < |all| && Texts(all[k + 1..end]) == s.args
      && all[end].text == if s.Block? then "{" else ";"
  }

  ghost predicate FromTokens(ss: seq<Statement>, all: seq<Token>)
    decreases ss
  {
    ss == []
    || (&& From1(ss[0], all) && (ss[0].Block? ==> FromTokens(ss[0].inner, all))
        && FromTokens(ss[1..], all))
  }

  // Where the words of a statement may begin.
  predicate MayOpen(all: seq<Token>, k: nat) {
    k == 0 || k >= |all| || IsPunctuationText(all[k - 1].text)
  }

  lemma {:induction false} FromTokensAppend(a: seq<Statement>, b: seq<Statement>, all: seq<Token>)
    requires FromTokens(a, all) && FromTokens(b, all)
    ensures FromTokens(a + b, all)
    decreases |a|
  {
    hide From1;
    if a == [] {
      assert a + b == b;
    } else {
      assert (a + b)[1..] == a[1..] + b;
      FromTokensAppend(a[1..], b, all);
    }
  }

  // The words from k on, up to the punctuation at `end`, as a statement.
  lemma {:induction false} StatementIsFrom(all: seq<Token>, k: nat, end: nat, s: Statement)
    requires k < end < |all| && MayOpen(all, k) && forall i | k <= i < end :: !IsPunctuationText(all[i].text)
    requires s.name == all[k].text && s.line == all[k].line && s.args == Texts(all[k..end][1..])
    requires all[end].text == if s.Block? then "{" else ";"
    ensures From1(s, all)
  {
    assert all[k..end][1..] == all[k + 1..end];
    TextsAt(all[k + 1..end], 0);
    assert Opens(all, k) && all[k] == Token(s.name, s.line);
  }

  /** On every token list, each statement has its name, its line and its arguments from a run of words between
      punctuation, in order. */
  lemma {:induction false} StatementsAreFrom(all: seq<Token>, k: nat, pos: nat) returns (next: nat)
    requires k <= pos <= |all| && MayOpen(all, k) && forall i | k <= i < pos :: !IsPunctuationText(all[i].text)
    ensures pos <= next <= |all| && MayOpen(all, next)
    ensures Statements(all[pos..], all[k..pos]).rest == all[next..]
    ensures FromTokens(Statements(all[pos..], all[k..pos]).out, all)
    decreases |all| - pos
  {
    hide Statements, FromTokens, From1, Texts, SimpleOf, BlockOf, Prepend;
    var cur := all[k..pos];
    Slices(all, k, pos);
    if pos == |all| {
      StatementsEnd(cur);
      next := pos;
      NothingIsFrom(all);
    } else {
      StatementsUnfold(all, pos, cur);
      var tok := all[pos];
      if !IsPunctuationText(tok.text) {
        next := StatementsAreFrom(all, k, pos + 1);
      } else if tok.text == "}" {
        next := pos + 1;
        NothingIsFrom(all);
        assert Statements(all[pos..], cur) == Parsed([], all[pos + 1..]);
      } else if tok.text == ";" {
        next := StatementsAreFrom(all, pos + 1, pos + 1);
        SimpleIsFrom(all, k, pos);
        PrependIsFrom(SimpleOf(cur), Statements(all[pos + 1..], []), all);
      } else {
        var end := StatementsAreFrom(all, pos + 1, pos + 1);
        Slices(all, end, end);
        next := StatementsAreFrom(all, end, end);
        var inner := Statements(all[pos + 1..], []).out;
        BlockIsFrom(all, k, pos, inner);
        PrependIsFrom(BlockOf(cur, inner), Statements(all[end..], []), all);
      }
    }
  }

  lemma {:induction false} Slices(all: seq<Token>, k: nat, pos: nat)
    requires k <= pos <= |all|
    ensures pos < |all| ==> all[k..pos + 1] == all[k..pos] + [all[pos]] && all[pos + 1..pos + 1] == []
    ensures all[pos..pos] == [] && all[|all|..] == []
  {
  }

  lemma {:induction false} PrependIsFrom(a: seq<Statement>, p: Parsed, all: seq<Token>)
    requires FromTokens(a, all) && FromTokens(p.out, all)
    ensures FromTokens(Prepend(a, p).out, all) && Prepend(a, p).rest == p.rest
  {
    hide FromTokens;
    FromTokensAppend(a, p.out, all);
  }

  lemma {:induction false} NothingIsFrom(all: seq<Token>)
    ensures FromTokens([], all)
  {
  }

  lemma {:induction false} SimpleIsFrom(all: seq<Token>, k: nat, pos: nat)
    requires k <= pos < |all| && MayOpen(all, k) && forall i | k <= i < pos :: !IsPunctuationText(all[i].text)
    requires all[pos].text == ";"
    ensures FromTokens(SimpleOf(all[k..pos]), all)
  {
    hide From1, Texts;
    NothingIsFrom(all);
    if k < pos {
      var s := SimpleOf(all[k..pos])[0];
      StatementIsFrom(all, k, pos, s);
      assert SimpleOf(all[k..pos])[1..] == [];
    }
  }

  lemma {:induction false} BlockIsFrom(all: seq<Token>, k: nat, pos: nat, inner: seq<Statement>)
    requires k <= pos < |all| && MayOpen(all, k) && forall i | k <= i < pos :: !IsPunctuationText(all[i].text)
    requires all[pos].text == "{" && FromTokens(inner, all)
    ensures FromTokens(BlockOf(all[k..pos], inner), all)
  {
    hide From1, Texts;
    NothingIsFrom(all);
    if k < pos {
      var s := BlockOf(all[k..pos], inner)[0];
      StatementIsFrom(all, k, pos, s);
      assert BlockOf(all[k..pos], inner)[1..] == [];
    }
  }

  // ---- Line numbers ----

  // Where each token of Tokens(text[at..]) ends in the text.
  function Ends(text: string, at: nat): seq<nat>
    requires at <= |text|
    decreases |text| - at
  {
    if at == |text| then []
    else
      var c := text[at];
      if c == '\n' || IsSpace(c) then Ends(text, at + 1)
      else if c == '#' then Ends(text, at + CommentLength(text[at..]))
      else [TokenEnd(text, at)] + Ends(text, TokenEnd(text, at))
  }

  function TokenEnd(text: string, at: nat): (end: nat)
    requires at < |text| && !IsSpace(text[at]) && text[at] != '#'
    ensures at < end <= |text|
  {
    var c := text[at];
    if IsPunctuation(c) then at + 1
    else if IsQuote(c) then |text| - |Quoted(text[at + 1..], c, 0).rest|
    else at + WordLength(text[at..])
  }

  lemma {:induction false} NewlinesAppend(a: string, b: string)
    ensures Newlines(a + b) == Newlines(a) + Newlines(b)
    decreases |a|
  {
    if a == "" {
      assert a + b == b;
    } else {
      assert (a + b)[1..] == a[1..] + b;
      NewlinesAppend(a[1..], b);
    }
  }

  lemma {:induction false} NewlinesBetween(text: string, i: nat, j: nat)
    requires i <= j <= |text|
    ensures Newlines(text[..j]) == Newlines(text[..i]) + Newlines(text[i..j])
  {
    assert text[..j] == text[..i] + text[i..j];
    NewlinesAppend(text[..i], text[i..j]);
  }

  lemma {:induction false} NoNewlines(s: string)
    requires '\n' !in s
    ensures Newlines(s) == 0
  {
    if s != "" {
      NoNewlines(s[1..]);
    }
  }

  lemma {:induction false} CommentIsOneLine(s: string)
    ensures '\n' !in s[..CommentLength(s)]
  {
    if s != "" && s[0] != '\n' {
      CommentIsOneLine(s[1..]);
      assert s[..CommentLength(s)] == [s[0]] + s[1..][..CommentLength(s[1..])];
    }
  }

  lemma {:induction false} WordIsOneLine(s: string)
    ensures '\n' !in s[..WordLength(s)]
  {
    if s != "" && !EndsWord(s[0]) {
      WordIsOneLine(s[1..]);
      assert s[..WordLength(s)] == [s[0]] + s[1..][..WordLength(s[1..])];
    }
  }

  // What is left after a quoted token is a suffix of its text, whatever the line number.
  lemma {:induction false} QuotedRest(s: string, q: char, line: nat)
    ensures var rest := Quoted(s, q, line).rest;
            rest == Quoted(s, q, 0).rest && rest == s[|s| - |rest|..]
    decreases |s|
  {
    hide Quoted;
    QuotedUnfolds(s, 0, q, line);
    QuotedUnfolds(s, 0, q, 0);
    assert s[0..] == s;
    if s != "" && s[0] != q {
      var k := QuotedStep(s, 0);
      hide QuotedStep;
      var line1 := if s[k] == '\n' then 1 else 0;
      QuotedRest(s[k + 1..], q, line + line1);
      QuotedRest(s[k + 1..], q, line1);
      var rest := Quoted(s[k + 1..], q, 0).rest;
      SplitAt(s, k + 1, |s| - k - 1 - |rest|);
    }
  }

  // A quoted token counts the line ends in it, escaped ones too.
  lemma {:induction false} QuotedCounts(s: string, q: char, line: nat)
    requires q != '\n'
    ensures var r := Quoted(s, q, line);
            r.line == line + Newlines(s[..|s| - |r.rest|])
    decreases |s|
  {
    hide Quoted, Newlines;
    QuotedUnfolds(s, 0, q, line);
    assert s[0..] == s;
    if s == "" {
      NoNewlines("");
    } else if s[0] == q {
      assert s[..1] == [q];
      NewlinesOfOne(q);
    } else {
      var k := QuotedStep(s, 0);
      var tail := s[k + 1..];
      QuotedCounts(tail, q, line + if s[k] == '\n' then 1 else 0);
      NewlinesOfStep(s, k, |tail| - |Quoted(s, q, line).rest|);
    }
  }

  lemma {:induction false} NewlinesOfStep(s: string, k: nat, used: nat)
    requires k <= 1 && k + 1 + used <= |s| && (k == 1 ==> s[0] != '\n')
    ensures Newlines(s[..k + 1 + used]) == (if s[k] == '\n' then 1 else 0) + Newlines(s[k + 1..][..used])
  {
    var tail := s[k + 1..][..used];
    if k == 0 {
      assert s[..1 + used] == [s[0]] + tail;
      assert s[..1 + used][1..] == tail;
    } else {
      assert s[..2 + used] == [s[0], s[1]] + tail;
      assert s[..2 + used][1..] == [s[1]] + tail;
      assert s[..2 + used][1..][1..] == tail;
    }
  }

  ghost predicate LinesMatch(text: string, toks: seq<Token>, ends: seq<nat>) {
    && |toks| == |ends|
    && (toks != [] ==>
          && ends[0] <= |text| && toks[0].line == 1 + Newlines(text[..ends[0]])
          && LinesMatch(text, toks[1..], ends[1..]))
  }

  lemma {:induction false} LinesMatchCons(text: string, tok: Token, end: nat, toks: seq<Token>, ends: seq<nat>)
    requires end <= |text| && tok.line == 1 + Newlines(text[..end]) && LinesMatch(text, toks, ends)
    ensures LinesMatch(text, [tok] + toks, [end] + ends)
  {
    assert ([tok] + toks)[1..] == toks && ([end] + ends)[1..] == ends;
  }

  // The tokens of the text from index `at` carry the lines they end on.
  ghost predicate LinesRight(text: string, at: nat)
    requires at <= |text|
  {
    LinesMatch(text, Tokens(text[at..], 1 + Newlines(text[..at])), Ends(text, at))
  }

  /** On every text, the line of a token is that of its last character: one more than the line ends up to
      its end, those in comments, quoted texts and escapes included. */
  lemma {:induction false} LinesAreRight(text: string, at: nat)
    requires at <= |text|
    ensures LinesRight(text, at)
    decreases |text| - at
  {
    hide LinesRight, IsSpace;
    if at == |text| {
      NoTokensLeft(text);
    } else if IsSpace(text[at]) {
      LinesAreRight(text, at + 1);
      LinesAfterSpace(text, at);
    } else if text[at] == '#' {
      var s := text[at..];
      assert CommentLength(s) > 0;
      LinesAreRight(text, at + CommentLength(s));
      LinesAfterComment(text, at);
    } else {
      LinesAreRight(text, TokenEnd(text, at));
      LinesAfterToken(text, at);
    }
  }

  lemma {:induction false} NoTokensLeft(text: string)
    ensures LinesRight(text, |text|)
  {
  }

  lemma {:induction false} LinesAfterSpace(text: string, at: nat)
    requires at < |text| && IsSpace(text[at]) && LinesRight(text, at + 1)
    ensures LinesRight(text, at)
  {
    SkipUnfolds(text, at, 1 + Newlines(text[..at]));
    hide Tokens, Quoted, WordLength, CommentLength, Newlines, LinesMatch;
    NewlinesBetween(text, at, at + 1);
    assert text[at..at + 1] == [text[at]];
    NewlinesOfOne(text[at]);
  }

  lemma {:induction false} LinesAfterComment(text: string, at: nat)
    requires at < |text| && text[at] == '#' && LinesRight(text, at + CommentLength(text[at..]))
    ensures LinesRight(text, at)
  {
    var s := text[at..];
    var end := at + CommentLength(s);
    assert CommentLength(s) > 0;
    assert Ends(text, at) == Ends(text, end);
    SkipUnfolds(text, at, 1 + Newlines(text[..at]));
    hide Tokens, Quoted, WordLength, CommentLength, Newlines, LinesMatch, Ends, IsSpace, EndsWord;
    CommentIsOneLine(s);
    NewlinesBetween(text, at, end);
    assert text[at..end] == s[..CommentLength(s)];
    NoNewlines(text[at..end]);
  }

  lemma {:induction false} TokenUnfolds(text: string, at: nat, line: nat)
    requires at < |text| && !IsSpace(text[at]) && text[at] != '#'
    ensures var r := Quoted(text[at + 1..], text[at], line);
            var line1 := if IsQuote(text[at]) then r.line else line;
            var rest := if IsQuote(text[at]) then r.rest else text[TokenEnd(text, at)..];
            var here := Tokens(text[at..], line);
            && here != [] && here[0].line == line1 && here == [here[0]] + Tokens(rest, line1)
  {
    hide Tokens, Quoted, WordLength;
    if IsQuote(text[at]) {
      QuoteUnfolds(text, at, line);
    } else {
      WordUnfolds(text, at, line);
    }
  }

  lemma {:induction false} TokenLine(text: string, at: nat)
    requires at < |text| && !IsSpace(text[at]) && text[at] != '#'
    ensures var end := TokenEnd(text, at);
            var line := 1 + Newlines(text[..end]);
            var here := Tokens(text[at..], 1 + Newlines(text[..at]));
            here != [] && here[0].line == line && here == [here[0]] + Tokens(text[end..], line)
  {
    hide Tokens, Quoted, WordLength, Newlines, TokenEnd, IsSpace;
    TokenUnfolds(text, at, 1 + Newlines(text[..at]));
    NewlinesOfToken(text, at);
  }

  lemma {:induction false} LinesAfterToken(text: string, at: nat)
    requires at < |text| && !IsSpace(text[at]) && text[at] != '#' && LinesRight(text, TokenEnd(text, at))
    ensures LinesRight(text, at)
  {
    var end := TokenEnd(text, at);
    assert Ends(text, at) == [end] + Ends(text, end);
    hide Tokens, Newlines, LinesMatch, TokenEnd, Ends, IsSpace;
    TokenLine(text, at);
    var here, line := Tokens(text[at..], 1 + Newlines(text[..at])), 1 + Newlines(text[..end]);
    LinesMatchCons(text, here[0], end, Tokens(text[end..], line), Ends(text, end));
  }

  lemma {:induction false} NewlinesOfToken(text: string, at: nat)
    requires at < |text| && !IsSpace(text[at]) && text[at] != '#'
    ensures var c, line, end := text[at], 1 + Newlines(text[..at]), TokenEnd(text, at);
            var line1 := 1 + Newlines(text[..end]);
            && (IsQuote(c) ==> Quoted(text[at + 1..], c, line).line == line1
                               && Quoted(text[at + 1..], c, line).rest == text[end..])
            && (!IsQuote(c) ==> line1 == line)
  {
    hide Tokens, Quoted, WordLength, CommentLength, Newlines;
    var c := text[at];
    var end := TokenEnd(text, at);
    NewlinesBetween(text, at, at + 1);
    assert text[at..at + 1] == [c];
    NewlinesOfOne(c);
    if IsQuote(c) {
      var body := text[at + 1..];
      QuotedCounts(body, c, 1 + Newlines(text[..at]));
      QuotedRest(body, c, 1 + Newlines(text[..at]));
      NewlinesBetween(text, at + 1, end);
      assert text[at + 1..end] == body[..end - at - 1];
      assert text[end..] == body[end - at - 1..];
    } else if !IsPunctuation(c) {
      WordIsOneLine(text[at..]);
      NewlinesBetween(text, at, end);
      assert text[at..end] == text[at..][..WordLength(text[at..])];
      NoNewlines(text[at..end]);
    }
  }

  lemma {:induction false} NewlinesOfOne(c: char)
    ensures Newlines([c]) == if c == '\n' then 1 else 0
  {
    assert [c][1..] == "";
  }

  // ---- The round trip ----

  function ParseText(text: string): seq<Tree> {
    ForgetAll(Statements(Tokens(text, 1), []).out)
  }

  /** However a configuration is spelled, tokenizing and parsing it gives the same tree back if and only if no word
      is exactly "{", "}" or ";": a quoted one cannot be told from the punctuation. */
  lemma {:induction false} RoundTrip(ts: seq<Tree>, ps: seq<Piece>)
    requires WellSpelled(ps) && Words(ps) == Flat(ts)
    ensures ParseText(Source(ps)) == ts <==> Clean(ts)
  {
    hide Tokens, Statements, WellSpelled, Located;
    var toks := Tokens(Source(ps), 1);
    ParsedIsClean(toks, []);
    if Clean(ts) {
      SpelledReads(ps, 1);
      WordsLocated(ps, 1);
      assert Flat(ts) + [] == Flat(ts);
      ParseAll(ts, toks, []);
      EmptyReads(toks[|Flat(ts)|..]);
      assert ts + [] == ts;
    }
  }

  /** And every configuration can be spelled. */
  lemma {:induction false} EveryTreeIsSpelled(ts: seq<Tree>) returns (ps: seq<Piece>)
    ensures WellSpelled(ps) && Words(ps) == Flat(ts)
  {
    SpellingIs(Flat(ts));
    ps := Spelling(Flat(ts));
  }

  lemma {:induction false} EmptyReads(toks: seq<Token>)
    requires Texts(toks) == []
    ensures Statements(toks, []) == Parsed([], [])
  {
  }
}
