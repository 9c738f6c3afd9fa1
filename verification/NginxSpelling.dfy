/**
  Every way to write nginx tokens down, and that the tokenizer reads each as it is meant.

  A text is a row of pieces: white space, comments, punctuation, bare words and quoted words of either kind.
  Every text can be cut up like that, so this says what the tokenizer does on every text.
 */
module NginxSpelling {
  import opened Text
  import opened NginxSyntax

  // A character between quotes, behind a backslash or not.
  datatype Unit = Plain(c: char) | Escaped(c: char)

  datatype Piece =
    | White(c: char)
    | Comment(text: string)
    | Mark(c: char)
    | Bare(word: string)
    | Quote(q: char, units: seq<Unit>, closed: bool)

  function SpellUnit(u: Unit): string {
    match u case Plain(c) => [c] case Escaped(c) => ['\\', c]
  }

  function SpellUnits(us: seq<Unit>): string {
    if us == [] then "" else SpellUnit(us[0]) + SpellUnits(us[1..])
  }

  function UnitText(us: seq<Unit>): string {
    if us == [] then "" else [us[0].c] + UnitText(us[1..])
  }

  function Spell(p: Piece): string {
    match p
    case White(c) => [c]
    case Comment(text) => ['#'] + text
    case Mark(c) => [c]
    case Bare(word) => word
    case Quote(q, units, closed) => [q] + (SpellUnits(units) + if closed then [q] else "")
  }

  function Source(ps: seq<Piece>): string {
    if ps == [] then "" else Spell(ps[0]) + Source(ps[1..])
  }

  // A quoted text holds its quote and backslashes only behind a backslash; one that is never closed may end in a
  // backslash.
  predicate ProperUnits(q: char, us: seq<Unit>, closed: bool) {
    us == []
    || (&& (us[0].Plain? ==> us[0].c != q && (us[0].c == '\\' ==> !closed && |us| == 1))
        && ProperUnits(q, us[1..], closed))
  }

  // What a bare word ends before.
  predicate Separates(c: char) {
    IsSpace(c) || c == '{' || c == '}' || c == ';' || c == '#'
  }

  // No white space, no "{", "}" or ";" and no "#"; and no quote in front.
  ghost predicate IsBare(w: string) {
    && w != "" && w[0] != '"' && w[0] != '\''
    && forall c | c in w :: !Separates(c)
  }

  // The piece is as it should be, and so is what comes next: a comment goes on to the end of its line, a bare word up
  // to white space, a comment or punctuation, and a quote that is never closed to the end of the text.
  ghost predicate Proper(p: Piece, rest: seq<Piece>) {
    match p
    case White(c) => IsSpace(c)
    case Comment(text) => '\n' !in text && (rest == [] || rest[0] == White('\n'))
    case Mark(c) => c == '{' || c == '}' || c == ';'
    case Bare(word) => IsBare(word) && (rest == [] || rest[0].White? || rest[0].Comment? || rest[0].Mark?)
    case Quote(q, units, closed) =>
      (q == '"' || q == '\'') && ProperUnits(q, units, closed) && (closed || rest == [])
  }

  ghost predicate WellSpelled(ps: seq<Piece>) {
    ps == [] || (Proper(ps[0], ps[1..]) && WellSpelled(ps[1..]))
  }

  function Newlines(s: string): nat {
    if s == "" then 0 else (if s[0] == '\n' then 1 else 0) + Newlines(s[1..])
  }

  // The tokens that are meant, each on the line it ends on.
  function Located(ps: seq<Piece>, line: nat): seq<Token> {
    if ps == [] then []
    else
      var rest := ps[1..];
      match ps[0]
      case White(c) => Located(rest, if c == '\n' then line + 1 else line)
      case Comment(_) => Located(rest, line)
      case Mark(c) => [Token([c], line)] + Located(rest, line)
      case Bare(word) => [Token(word, line)] + Located(rest, line)
      case Quote(_, units, _) =>
        var end := line + Newlines(UnitText(units));
        [Token(UnitText(units), end)] + Located(rest, end)
  }

  // The words and marks that are meant.
  function Words(ps: seq<Piece>): seq<string> {
    if ps == [] then []
    else
      (match ps[0]
       case White(_) => []
       case Comment(_) => []
       case Mark(c) => [[c]]
       case Bare(word) => [word]
       case Quote(_, units, _) => [UnitText(units)]) + Words(ps[1..])
  }

  lemma {:induction false} WordsLocated(ps: seq<Piece>, line: nat)
    ensures Texts(Located(ps, line)) == Words(ps)
    decreases |ps|
  {
    if ps != [] {
      var line1 := match ps[0]
        case White(c) => if c == '\n' then line + 1 else line
        case Quote(_, units, _) => line + Newlines(UnitText(units))
        case _ => line;
      WordsLocated(ps[1..], line1);
      var toks := Located(ps, line);
      assert toks != Located(ps[1..], line1) ==> toks[1..] == Located(ps[1..], line1);
    }
  }

  // ---- Every spelling reads as meant ----

  lemma {:induction false} CommentEnds(text: string, rest: string)
    requires '\n' !in text && (rest == "" || rest[0] == '\n')
    ensures CommentLength(text + rest) == |text|
    decreases |text|
  {
    if text == "" {
      assert text + rest == rest;
    } else {
      assert (text + rest)[1..] == text[1..] + rest;
      CommentEnds(text[1..], rest);
    }
  }

  lemma {:induction false} WordEnds(w: string, rest: string)
    requires forall c | c in w :: !Separates(c)
    requires rest == "" || Separates(rest[0])
    ensures WordLength(w + rest) == |w|
    decreases |w|
  {
    hide IsSpace;
    if w == "" {
      assert w + rest == rest;
    } else {
      assert (w + rest)[1..] == w[1..] + rest;
      assert w[0] in w && forall c | c in w[1..] :: c in w;
      WordEnds(w[1..], rest);
    }
  }

  // One unit and what follows it.
  lemma {:induction false} UnitReads(q: char, u: Unit, tail: string, line: nat)
    requires u.Plain? ==> u.c != q && (u.c == '\\' ==> tail == "")
    requires q != '\\'
    ensures var s := SpellUnit(u) + tail;
            Quoted(s, q, line) == WithText([u.c], Quoted(tail, q, if u.c == '\n' then line + 1 else line))
  {
    var s := SpellUnit(u) + tail;
    QuotedUnfolds(s, 0, q, line);
    hide Quoted;
    assert s[0..] == s;
    if u.Plain? {
      assert s[1..] == tail;
    } else {
      assert s[2..] == tail;
    }
  }

  lemma {:induction false} UnitsRead(q: char, us: seq<Unit>, closed: bool, rest: string, line: nat)
    requires q != '\\' && ProperUnits(q, us, closed) && (closed || rest == "")
    ensures Quoted(SpellUnits(us) + (if closed then [q] else "") + rest, q, line) ==
            QuotedText(UnitText(us), rest, line + Newlines(UnitText(us)))
    decreases |us|
  {
    hide Quoted, WithText;
    var end: string := if closed then [q] else "";
    if us == [] {
      EndReads(q, closed, rest, line);
    } else {
      var u, tail := us[0], SpellUnits(us[1..]) + end + rest;
      assert SpellUnits(us) + end + rest == SpellUnit(u) + tail;
      assert u.Plain? && u.c == '\\' ==> us[1..] == [];
      UnitReads(q, u, tail, line);
      UnitsRead(q, us[1..], closed, rest, if u.c == '\n' then line + 1 else line);
      TextGrows(us, rest, line);
    }
  }

  lemma {:induction false} EndReads(q: char, closed: bool, rest: string, line: nat)
    requires closed || rest == ""
    ensures Quoted("" + (if closed then [q] else "") + rest, q, line) == QuotedText("", rest, line + Newlines(""))
  {
    hide Quoted;
    var s := (if closed then [q] else "") + rest;
    assert "" + (if closed then [q] else "") + rest == s;
    QuotedUnfolds(s, 0, q, line);
    assert s[0..] == s;
    assert closed ==> s[1..] == rest;
  }

  lemma {:induction false} TextGrows(us: seq<Unit>, rest: string, line: nat)
    requires us != []
    ensures var line1 := if us[0].c == '\n' then line + 1 else line;
            WithText([us[0].c], QuotedText(UnitText(us[1..]), rest, line1 + Newlines(UnitText(us[1..])))) ==
            QuotedText(UnitText(us), rest, line + Newlines(UnitText(us)))
  {
    assert UnitText(us)[1..] == UnitText(us[1..]);
  }

  lemma {:induction false} WhiteReads(c: char, rest: string, line: nat)
    requires IsSpace(c)
    ensures Tokens([c] + rest, line) == Tokens(rest, if c == '\n' then line + 1 else line)
  {
    hide Quoted, WordLength, CommentLength;
    assert ([c] + rest)[1..] == rest;
  }

  lemma {:induction false} CommentReads(text: string, rest: string, line: nat)
    requires '\n' !in text && (rest == "" || rest[0] == '\n')
    ensures Tokens(['#'] + text + rest, line) == Tokens(rest, line)
  {
    var s := ['#'] + text + rest;
    CommentEnds(['#'] + text, rest);
    hide Quoted, WordLength, CommentLength;
    assert s[|['#'] + text|..] == rest;
  }

  lemma {:induction false} MarkReads(c: char, rest: string, line: nat)
    requires c == '{' || c == '}' || c == ';'
    ensures Tokens([c] + rest, line) == [Token([c], line)] + Tokens(rest, line)
  {
    hide Quoted, WordLength, CommentLength;
    assert ([c] + rest)[1..] == rest;
  }

  lemma {:induction false} BareReads(w: string, rest: string, line: nat)
    requires IsBare(w)
    requires rest == "" || Separates(rest[0])
    ensures Tokens(w + rest, line) == [Token(w, line)] + Tokens(rest, line)
  {
    hide Quoted, WordLength, CommentLength, IsSpace;
    var s := w + rest;
    WordEnds(w, rest);
    assert s[0] == w[0] && w[0] in w;
    WordIs(s, line);
    assert s[..|w|] == w && s[|w|..] == rest;
  }

  lemma {:induction false} QuoteReads(q: char, us: seq<Unit>, closed: bool, rest: string, line: nat)
    requires (q == '"' || q == '\'') && ProperUnits(q, us, closed) && (closed || rest == "")
    ensures var end := line + Newlines(UnitText(us));
            Tokens(Spell(Quote(q, us, closed)) + rest, line) == [Token(UnitText(us), end)] + Tokens(rest, end)
  {
    hide Quoted, WordLength, CommentLength, ProperUnits, SpellUnits, UnitText, Newlines;
    var s := Spell(Quote(q, us, closed)) + rest;
    UnitsRead(q, us, closed, rest, line);
    QuoteUnfolds(s, 0, line);
    assert s[0..] == s && s[1..] == SpellUnits(us) + (if closed then [q] else "") + rest;
  }

  // What comes behind a bare word, or behind a comment.
  lemma {:induction false} NextCharacter(ps: seq<Piece>)
    requires WellSpelled(ps)
    ensures ps == [] <==> Source(ps) == ""
    ensures ps != [] && (ps[0].White? || ps[0].Mark?) ==> Source(ps)[0] == ps[0].c
    ensures ps != [] && ps[0].Comment? ==> Source(ps)[0] == '#'
    ensures ps != [] && ps[0].White? ==> IsSpace(ps[0].c)
  {
    hide IsSpace;
  }

  /** However it is spelled, a text is read as the tokens that are meant, each on the line it ends on. */
  lemma {:induction false} SpelledReads(ps: seq<Piece>, line: nat)
    requires WellSpelled(ps)
    ensures Tokens(Source(ps), line) == Located(ps, line)
    decreases |ps|
  {
    hide Tokens, IsSpace, IsBare, ProperUnits, UnitText, Newlines;
    if ps == [] {
      NoTokens("", 0, line);
    } else {
      var rest := Source(ps[1..]);
      NextCharacter(ps[1..]);
      match ps[0]
      case White(c) =>
        WhiteReads(c, rest, line);
        SpelledReads(ps[1..], if c == '\n' then line + 1 else line);
      case Comment(text) =>
        CommentReads(text, rest, line);
        SpelledReads(ps[1..], line);
      case Mark(c) =>
        MarkReads(c, rest, line);
        SpelledReads(ps[1..], line);
      case Bare(word) =>
        BareReads(word, rest, line);
        SpelledReads(ps[1..], line);
      case Quote(q, units, closed) =>
        QuoteReads(q, units, closed, rest, line);
        SpelledReads(ps[1..], line + Newlines(UnitText(units)));
    }
  }

  // ---- Every text is spelled ----

  lemma {:induction false} CutComment(s: string) returns (text: string, rest: string)
    ensures s == text + rest && '\n' !in text && (rest == "" || rest[0] == '\n')
  {
    if s == "" || s[0] == '\n' {
      text, rest := "", s;
    } else {
      text, rest := CutComment(s[1..]);
      text := [s[0]] + text;
    }
  }

  lemma {:induction false} CutWord(s: string) returns (w: string, rest: string)
    ensures s == w + rest && forall c | c in w :: !Separates(c)
    ensures rest == "" || Separates(rest[0])
  {
    hide IsSpace;
    if s == "" || Separates(s[0]) {
      w, rest := "", s;
    } else {
      w, rest := CutWord(s[1..]);
      w := [s[0]] + w;
    }
  }

  lemma {:induction false} CutQuote(s: string, q: char) returns (us: seq<Unit>, closed: bool, rest: string)
    requires q != '\\'
    ensures s == SpellUnits(us) + (if closed then [q] else "") + rest
    ensures ProperUnits(q, us, closed) && (closed || rest == "")
    ensures s != "" ==> us != [] || closed
    decreases |s|
  {
    if s == "" {
      us, closed, rest := [], false, "";
    } else if s[0] == q {
      us, closed, rest := [], true, s[1..];
    } else {
      var k := if s[0] == '\\' && |s| > 1 then 1 else 0;
      us, closed, rest := CutQuote(s[k + 1..], q);
      var u := if k == 1 then Escaped(s[1]) else Plain(s[0]);
      var more := us;
      us := [u] + more;
      assert us[1..] == more;
      assert s == (if k == 1 then ['\\', s[1]] else [s[0]]) + s[k + 1..];
    }
  }

  // The first piece of a text, and the rest of it.
  lemma {:induction false} CutPiece(s: string) returns (p: Piece, rest: string)
    requires s != ""
    ensures s == Spell(p) + rest && |rest| < |s|
    ensures if IsSpace(s[0]) then p == White(s[0])
            else if s[0] == '#' then p.Comment? && '\n' !in p.text && (rest == "" || rest[0] == '\n')
            else if s[0] == '{' || s[0] == '}' || s[0] == ';' then p == Mark(s[0])
            else if s[0] == '"' || s[0] == '\'' then
              p.Quote? && p.q == s[0] && ProperUnits(p.q, p.units, p.closed) && (p.closed || rest == "")
            else p.Bare? && IsBare(p.word) && (rest == "" || Separates(rest[0]))
  {
    hide IsSpace, ProperUnits, SpellUnits;
    var c, tail := s[0], s[1..];
    assert s == [c] + tail;
    if IsSpace(c) {
      p, rest := White(c), tail;
    } else if c == '#' {
      var text;
      text, rest := CutComment(tail);
      p := Comment(text);
    } else if c == '{' || c == '}' || c == ';' {
      p, rest := Mark(c), tail;
    } else if c == '"' || c == '\'' {
      var us, closed;
      us, closed, rest := CutQuote(tail, c);
      p := Quote(c, us, closed);
    } else {
      var w;
      w, rest := CutWord(s);
      p := Bare(w);
    }
  }

  /** Every text is spelled in some way. */
  lemma {:induction false} EveryTextIsSpelled(s: string) returns (ps: seq<Piece>)
    ensures WellSpelled(ps) && Source(ps) == s
    ensures s == "" ==> ps == []
    ensures s != "" ==> ps != []
                        && (IsSpace(s[0]) ==> ps[0] == White(s[0]))
                        && (s[0] == '#' ==> ps[0].Comment?)
                        && (s[0] == '{' || s[0] == '}' || s[0] == ';' ==> ps[0] == Mark(s[0]))
    decreases |s|
  {
    if s == "" {
      ps := [];
    } else {
      assert !IsSpace('#') && !IsSpace('{') && !IsSpace('}') && !IsSpace(';') && IsSpace('\n');
      hide IsSpace, ProperUnits, SpellUnits, IsBare;
      var p, rest := CutPiece(s);
      var more := EveryTextIsSpelled(rest);
      ps := [p] + more;
      assert ps[1..] == more;
      assert Proper(p, more);
    }
  }
}
