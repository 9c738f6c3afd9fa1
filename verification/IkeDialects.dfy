/**
  The two spellings of an IKE proposal, and exactly when the parser reads them alike.

  Libreswan gives every slot one assignment (`ke=a+b;addke1=c`), strongSwan every word one token
  (`a-b-ke1_c`).  What separates tokens is therefore harmless in one dialect and not in the other.
 */
module IkeDialects {
  import opened Options
  import opened Text
  import opened IkeProposal
  import opened IkeText

  // A slot and the words to offer in it.
  datatype Offer = Offer(slot: nat, words: seq<string>)

  // No white space, and none of the characters that both dialects cut or trim a text at.
  ghost predicate IsWord(w: string) {
    w != "" && ';' !in w && '+' !in w && '!' !in w && NoSpace(w)
  }

  ghost predicate AreWords(ws: seq<Word>) {
    forall i | 0 <= i < |ws| :: ws[i].slot <= 7 && IsWord(ws[i].text)
  }

  ghost predicate Fits(o: Offer) {
    o.slot <= 7 && o.words != [] && forall i | 0 <= i < |o.words| :: IsWord(o.words[i])
  }

  ghost predicate AllFit(os: seq<Offer>) {
    forall i | 0 <= i < |os| :: Fits(os[i])
  }

  // Every word with its slot.
  function Flat(os: seq<Offer>): seq<Word> {
    if os == [] then [] else ForSlot(os[0].slot, os[0].words) + Flat(os[1..])
  }

  // ---- Libreswan ----

  function SlotChar(slot: nat): char
    requires slot <= 7
  {
    (slot + '0' as int) as char
  }

  function Key(slot: nat): string
    requires slot <= 7
  {
    if slot == 0 then "ke" else "addke" + [SlotChar(slot)]
  }

  function LibreSegment(o: Offer): string
    requires o.slot <= 7
  {
    Key(o.slot) + "=" + JoinWith(o.words, '+')
  }

  function LibreSegments(os: seq<Offer>): (r: seq<string>)
    requires AllFit(os)
    ensures |r| == |os| && forall i | 0 <= i < |os| :: r[i] == LibreSegment(os[i])
  {
    if os == [] then [] else [LibreSegment(os[0])] + LibreSegments(os[1..])
  }

  function Libreswan(os: seq<Offer>): string
    requires AllFit(os)
  {
    JoinWith(LibreSegments(os), ';')
  }

  // ---- strongSwan ----

  function SwanToken(w: Word): string
    requires w.slot <= 7
  {
    if w.slot == 0 then w.text else "ke" + [SlotChar(w.slot)] + "_" + w.text
  }

  function SwanTokens(ws: seq<Word>): (r: seq<string>)
    requires AreWords(ws)
    ensures |r| == |ws| && forall i | 0 <= i < |ws| :: r[i] == SwanToken(ws[i])
  {
    if ws == [] then [] else [SwanToken(ws[0])] + SwanTokens(ws[1..])
  }

  function StrongSwan(ws: seq<Word>): string
    requires AreWords(ws)
  {
    JoinWith(SwanTokens(ws), '-')
  }

  // ---- Reading what was printed ----

  lemma {:induction false} StripNoBang(s: string)
    requires '!' !in s
    ensures StripRight(s, '!') == s
  {
  }

  // A text without white space, "!" and ";" is one segment.
  lemma {:induction false} OneSegment(s: string)
    requires NoSpace(s) && '!' !in s && ';' !in s
    ensures Words(s) == Segment(s)
  {
    hide Segment, IsSpace;
    StripNothing(s);
    StripNoBang(s);
    SplitOne(s, ';');
    assert [s][1..] == [];
    assert Segments([s]) == Segment(s) + [] == Segment(s);
  }

  lemma {:induction false} CutAt(a: string, b: string)
    requires '=' !in a
    ensures '=' in a + "=" + b && Cut(a + "=" + b) == (a, b)
  {
    var s := a + "=" + b;
    assert s[|a|] == '=';
    if a != "" {
      CutAt(a[1..], b);
      assert s[0] == a[0] && s[1..] == a[1..] + "=" + b;
      assert [a[0]] + a[1..] == a;
    } else {
      assert s[1..] == b;
    }
  }

  lemma {:induction false} CutIs(s: string)
    requires '=' in s
    ensures s == Cut(s).0 + "=" + Cut(s).1 && '=' !in Cut(s).0
  {
    if s[0] != '=' {
      assert '=' in s[1..];
      CutIs(s[1..]);
      assert s == [s[0]] + s[1..];
    }
  }

  // Lower-case letters, digits and hyphens.
  predicate IsSimple(c: char) {
    'a' <= c <= 'z' || '0' <= c <= '9' || c == '-'
  }

  lemma {:induction false} SimpleIsWord(w: string)
    requires w != "" && forall i | 0 <= i < |w| :: IsSimple(w[i])
    ensures IsWord(w) && Lower(w) == w
  {
  }

  lemma {:induction false} KeyIsWord(slot: nat)
    requires slot <= 7
    ensures IsWord(Key(slot)) && Lower(Key(slot)) == Key(slot) && '=' !in Key(slot)
  {
    var key := Key(slot);
    assert forall i | 0 <= i < |key| :: IsSimple(key[i]);
    hide IsWord, Lower;
    SimpleIsWord(key);
  }

  lemma {:induction false} KeyReads(slot: nat, value: string)
    requires slot <= 7
    ensures Assignment(Key(slot), value) == Value(slot, value)
    ensures '=' !in Key(slot) && NoSpace(Key(slot)) && '!' !in Key(slot) && ';' !in Key(slot)
  {
    hide Value, Lower, IsSpace, Strip;
    KeyIsWord(slot);
    StripNothing(Key(slot));
  }

  lemma {:induction false} SegmentReads(o: Offer)
    requires Fits(o)
    ensures var s := LibreSegment(o);
            Segment(s) == ForSlot(o.slot, o.words) && NoSpace(s) && '!' !in s && ';' !in s && s != ""
  {
    hide IsSpace, Strip, Split, Assignment, Cut, Key;
    var value := JoinWith(o.words, '+');
    var s := LibreSegment(o);
    KeyReads(o.slot, value);
    forall c | c in value ensures c == '+' || (!IsSpace(c) && c != '!' && c != ';') {
      JoinChars(o.words, '+', c);
    }
    PlusIsPlain();
    StripNothing(s);
    CutAt(Key(o.slot), value);
    SplitJoin(o.words, '+');
  }

  lemma {:induction false} PlusIsPlain()
    ensures !IsSpace('+') && !IsSpace('=') && !IsSpace('-') && !IsSpace('_') && !IsSpace(';') && NoSpace("=")
  {
  }

  lemma {:induction false} SegmentsRead(os: seq<Offer>)
    requires AllFit(os)
    ensures Segments(LibreSegments(os)) == Flat(os)
    decreases |os|
  {
    hide Segment, LibreSegment;
    if os != [] {
      SegmentReads(os[0]);
      SegmentsRead(os[1..]);
      assert LibreSegments(os)[1..] == LibreSegments(os[1..]);
    }
  }

  /** Libreswan's spelling reads as just the words offered, each for its slot. */
  lemma {:induction false} LibreswanReads(os: seq<Offer>)
    requires AllFit(os)
    ensures Words(Libreswan(os)) == Flat(os)
  {
    hide Segment, LibreSegment, IsSpace;
    var text := Libreswan(os);
    var segs := LibreSegments(os);
    if os == [] {
      OneSegment("");
      assert Segment("") == [] by { EmptySegment(); }
    } else {
      forall i | 0 <= i < |segs| ensures NoSpace(segs[i]) && '!' !in segs[i] && ';' !in segs[i] {
        SegmentReads(os[i]);
      }
      PlusIsPlain();
      forall c | c in text ensures !IsSpace(c) && c != '!' {
        JoinChars(segs, ';', c);
      }
      StripNothing(text);
      StripNoBang(text);
      SplitJoin(segs, ';');
      SegmentsRead(os);
    }
  }

  lemma {:induction false} EmptySegment()
    ensures Segment("") == []
  {
  }

  lemma {:induction false} ForSlotAt(slot: nat, words: seq<string>)
    ensures var r := ForSlot(slot, words);
            |r| == |words| && forall i | 0 <= i < |words| :: r[i] == Word(slot, words[i])
    decreases |words|
  {
    if words != [] {
      ForSlotAt(slot, words[1..]);
    }
  }

  lemma {:induction false} FlatAreWords(os: seq<Offer>)
    requires AllFit(os)
    ensures AreWords(Flat(os)) && (os != [] ==> Flat(os) != [])
    decreases |os|
  {
    if os != [] {
      FlatAreWords(os[1..]);
      ForSlotAt(os[0].slot, os[0].words);
      assert Fits(os[0]);
    }
  }

  // The token of a word, alone.
  lemma {:induction false} TokenChars(w: Word)
    requires w.slot <= 7 && IsWord(w.text)
    ensures var t := SwanToken(w);
            && t != "" && NoSpace(t) && '!' !in t && ';' !in t && '+' !in t
            && ('=' in t <==> '=' in w.text) && ('-' in t <==> '-' in w.text)
  {
    PlusIsPlain();
    assert !IsSpace('k') && !IsSpace('e') && (w.slot <= 7 ==> !IsSpace(SlotChar(w.slot)));
    hide IsSpace;
  }

  // The text is one segment, with the "=" of its words.
  lemma {:induction false} SwanText(ws: seq<Word>)
    requires AreWords(ws) && ws != []
    ensures var s := StrongSwan(ws);
            && NoSpace(s) && '!' !in s && ';' !in s && '+' !in s && s != ""
            && ('=' in s <==> exists i :: 0 <= i < |ws| && '=' in ws[i].text)
            && Words(s) == Segment(s)
  {
    hide IsSpace, SwanToken, Segment, Words;
    var toks, s := SwanTokens(ws), StrongSwan(ws);
    PlusIsPlain();
    forall i | 0 <= i < |ws|
      ensures toks[i] != "" && NoSpace(toks[i]) && '!' !in toks[i] && ';' !in toks[i] && '+' !in toks[i]
              && ('=' in toks[i] <==> '=' in ws[i].text)
    {
      TokenChars(ws[i]);
    }
    forall c | c in s
      ensures !IsSpace(c) && c != '!' && c != ';' && c != '+'
              && (c == '=' ==> exists i :: 0 <= i < |ws| && '=' in ws[i].text)
    {
      JoinChars(toks, '-', c);
    }
    if i :| 0 <= i < |ws| && '=' in ws[i].text {
      JoinHas(toks, '-', i, '=');
    }
    JoinHas(toks, '-', 0, toks[0][0]);
    OneSegment(s);
  }

  // The words a token stands for: itself, or in the slot it names, lower-cased, what follows.
  function Read(w: Word): Word {
    var t := Lower(w.text);
    if w.slot > 0 then Word(w.slot, t)
    else if IsKeToken(t) then Word(Digit(t[2]), t[4..])
    else w
  }

  function ReadAll(ws: seq<Word>): (r: seq<Word>)
    ensures |r| == |ws| && forall i | 0 <= i < |ws| :: r[i] == Read(ws[i])
  {
    if ws == [] then [] else [Read(ws[0])] + ReadAll(ws[1..])
  }

  lemma {:induction false} ValueIs(slot: nat, value: string)
    requires '+' !in value
    ensures Value(slot, value) == [Word(slot, value)]
  {
    SplitOne(value, '+');
    assert [value][1..] == [];
    assert ForSlot(slot, [value]) == [Word(slot, value)] + [];
  }

  lemma {:induction false} PrefixLowers(c: char, w: string)
    requires '1' <= c <= '7' && NoSpace(w) && w != ""
    ensures var t := Lower("ke" + [c] + "_" + w);
            IsKeToken(t) && Digit(t[2]) == c as int - '0' as int && t[4..] == Lower(w)
  {
    var p := "ke" + [c] + "_";
    var t := Lower(p + w);
    assert t[0] == 'k' && t[1] == 'e' && t[2] == c && t[3] == '_';
    assert t[..2] == "ke";
    assert t[4..] == Lower(w);
    LowerNoSpace(w);
    assert IsSpace('\n');
  }

  lemma {:induction false} TokenReads(w: Word)
    requires w.slot <= 7 && IsWord(w.text)
    ensures Token(SwanToken(w)) == [Read(w)]
  {
    TokenChars(w);
    var tok := SwanToken(w);
    StripNothing(tok);
    var t := Lower(tok);
    LowerKeeps(tok, '+');
    LowerKeeps(w.text, '+');
    SlotDigit(w.slot);
    if w.slot > 0 {
      PrefixLowers(SlotChar(w.slot), w.text);
      hide Strip, IsSpace, Lower, Value, IsKeToken, Digit;
      ValueIs(w.slot, Lower(w.text));
    } else if IsKeToken(t) {
      TailKeeps(t, 4, '+');
      hide Strip, IsSpace, Lower, Value;
      ValueIs(Digit(t[2]), t[4..]);
    } else {
      hide Strip, IsSpace, Lower, Value, IsKeToken;
      ValueIs(0, tok);
    }
  }

  lemma {:induction false} TailKeeps(s: string, k: nat, c: char)
    requires k <= |s| && c !in s
    ensures c !in s[k..]
  {
  }

  lemma {:induction false} SlotDigit(slot: nat)
    requires slot <= 7
    ensures SlotChar(slot) as int - '0' as int == slot
  {
  }

  lemma {:induction false} TokensRead(ws: seq<Word>)
    requires AreWords(ws)
    ensures Tokens(SwanTokens(ws)) == ReadAll(ws)
    decreases |ws|
  {
    hide Token, SwanToken, Read;
    if ws != [] {
      TokenReads(ws[0]);
      TokensRead(ws[1..]);
      assert SwanTokens(ws)[1..] == SwanTokens(ws[1..]);
    }
  }

  /** With no "-" or "=" in a word, strongSwan's spelling reads token by token. */
  lemma {:induction false} StrongSwanReads(ws: seq<Word>)
    requires AreWords(ws)
    requires forall i | 0 <= i < |ws| :: '-' !in ws[i].text && '=' !in ws[i].text
    ensures Words(StrongSwan(ws)) == ReadAll(ws)
  {
    hide Words, Tokens, Strip, SwanToken, IsSpace;
    var s := StrongSwan(ws);
    if ws == [] {
      OneSegment("");
      EmptySegment();
    } else {
      SwanText(ws);
      StripNothing(s);
      var toks := SwanTokens(ws);
      forall i | 0 <= i < |toks| ensures '-' !in toks[i] {
        TokenChars(ws[i]);
      }
      SplitJoin(toks, '-');
      TokensRead(ws);
    }
  }

  // ---- When they agree ----

  // The parser of tokens takes the word for what it is.
  predicate IsPlain(w: Word) {
    '-' !in w.text && '=' !in w.text && !(w.slot == 0 && IsKeToken(Lower(w.text)))
  }

  lemma {:induction false} SameMention(known: Catalogue, w: Word)
    requires IsWord(w.text) && IsPlain(w)
    ensures MentionOf(known, Read(w)) == MentionOf(known, w)
  {
    StripNothing(w.text);
    LowerNoSpace(w.text);
    StripNothing(Lower(w.text));
    LowerTwice(w.text);
    hide Strip, IsSpace, Lower;
  }

  lemma {:induction false} SameMentions(known: Catalogue, ws: seq<Word>)
    requires AreWords(ws) && forall i | 0 <= i < |ws| :: IsPlain(ws[i])
    ensures Mentions(known, ReadAll(ws)) == Mentions(known, ws)
  {
    hide MentionOf, Read, IsPlain, IsWord, Mentions;
    MentionsAt(known, ws);
    MentionsAt(known, ReadAll(ws));
    forall i | 0 <= i < |ws| ensures Mentions(known, ReadAll(ws))[i] == Mentions(known, ws)[i] {
      SameMention(known, ws[i]);
    }
  }

  lemma {:induction false} MentionsHold(known: Catalogue, ws: seq<Word>, m: Mention)
    ensures m in Mentions(known, ws) <==> exists i :: 0 <= i < |ws| && MentionOf(known, ws[i]) == m
    decreases |ws|
  {
    hide MentionOf;
    if ws != [] {
      var n := |ws| - 1;
      MentionsHold(known, ws[..n], m);
      if i :| 0 <= i < n && MentionOf(known, ws[..n][i]) == m {
        assert MentionOf(known, ws[i]) == m;
      }
      if i :| 0 <= i < |ws| && MentionOf(known, ws[i]) == m {
        assert i < n ==> ws[..n][i] == ws[i];
      }
    }
  }

  // A catalogue that knows every word, each as a method of its own.
  function Everything(): Catalogue {
    t => Some(Other(t))
  }

  // One of the words read is this one.
  ghost predicate IsRead(w: Word, read: seq<Word>) {
    exists j :: 0 <= j < |read| && read[j].slot == w.slot && Lower(Strip(read[j].text)) == Lower(Strip(w.text))
  }

  // Where a word is not read, the slots differ.
  lemma {:induction false} UnreadDiffers(ws: seq<Word>, read: seq<Word>, i: nat)
    requires i < |ws| && !IsRead(ws[i], read)
    ensures Fill(Mentions(Everything(), ws)) != Fill(Mentions(Everything(), read))
  {
    hide Strip, Lower, Fill, Mentions;
    var known := Everything();
    var m := MentionOf(known, ws[i]);
    MentionsHold(known, ws, m);
    MentionsHold(known, read, m);
    FillHolds(Mentions(known, ws), m.slot, m.named.value);
    FillHolds(Mentions(known, read), m.slot, m.named.value);
  }

  // ---- A "-" in a word ----

  lemma {:induction false} TokenHasNoDash(tok: string, k: nat)
    requires '-' !in tok && k < |Token(tok)|
    ensures '-' !in Lower(Strip(Token(tok)[k].text))
  {
    var t := Lower(Strip(tok));
    if '-' in Strip(tok) {
      StripKeeps(tok, '-');
    }
    LowerKeeps(Strip(tok), '-');
    hide Lower, Strip;
    var value := if IsKeToken(t) then t[4..] else tok;
    assert '-' !in value;
    ForSlotAt(Token(tok)[0].slot, Split(value, '+'));
    var u := Token(tok)[k].text;
    assert u == Split(value, '+')[k] by { TokenAt(tok, k); }
    SplitPieces(value, '+', k);
    if '-' in Strip(u) {
      StripKeeps(u, '-');
    }
    LowerKeeps(Strip(u), '-');
  }

  lemma {:induction false} TokenAt(tok: string, k: nat)
    requires k < |Token(tok)|
    ensures var t := Lower(Strip(tok));
            var value := if IsKeToken(t) then t[4..] else tok;
            k < |Split(value, '+')| && Token(tok)[k].text == Split(value, '+')[k]
  {
    hide Lower, Strip;
    var t := Lower(Strip(tok));
    if IsKeToken(t) {
      ForSlotAt(Digit(t[2]), Split(t[4..], '+'));
    } else {
      ForSlotAt(0, Split(tok, '+'));
    }
  }

  lemma {:induction false} TokensHaveNoDash(toks: seq<string>, j: nat)
    requires forall i | 0 <= i < |toks| :: '-' !in toks[i]
    requires j < |Tokens(toks)|
    ensures '-' !in Lower(Strip(Tokens(toks)[j].text))
    decreases |toks|
  {
    hide Token, Lower, Strip;
    if j < |Token(toks[0])| {
      TokenHasNoDash(toks[0], j);
    } else {
      TokensHaveNoDash(toks[1..], j - |Token(toks[0])|);
    }
  }

  lemma {:induction false} DashIsLost(ws: seq<Word>, i: nat)
    requires AreWords(ws) && i < |ws| && '-' in ws[i].text
    requires forall k | 0 <= k < |ws| :: '=' !in ws[k].text
    ensures !IsRead(ws[i], Words(StrongSwan(ws)))
  {
    hide Words, Tokens, Lower, Strip, StrongSwan, IsSpace;
    var s := StrongSwan(ws);
    SwanText(ws);
    StripNothing(s);
    var toks := Split(s, '-');
    assert Words(s) == Tokens(toks);
    forall k | 0 <= k < |toks| ensures '-' !in toks[k] {
      SplitPieces(s, '-', k);
    }
    StripNothing(ws[i].text);
    LowerKeeps(ws[i].text, '-');
    forall j | 0 <= j < |Words(s)| ensures Lower(Strip(Words(s)[j].text)) != Lower(Strip(ws[i].text)) {
      TokensHaveNoDash(toks, j);
    }
  }

  // ---- A primary word that looks like a token for another slot ----

  lemma {:induction false} SlotIsMistaken(ws: seq<Word>, i: nat)
    requires AreWords(ws) && i < |ws| && ws[i].slot == 0 && IsKeToken(Lower(ws[i].text))
    requires forall k | 0 <= k < |ws| :: '-' !in ws[k].text && '=' !in ws[k].text
    ensures !IsRead(ws[i], Words(StrongSwan(ws)))
  {
    hide Words, Lower, Strip, IsSpace, IsKeToken, StrongSwan;
    StrongSwanReads(ws);
    var read := ReadAll(ws);
    StripNothing(ws[i].text);
    forall j | 0 <= j < |read| && read[j].slot == 0 ensures Lower(Strip(read[j].text)) != Lower(Strip(ws[i].text)) {
      KeTokenSlot(Lower(ws[j].text));
      StripNothing(ws[j].text);
    }
  }

  lemma {:induction false} KeTokenSlot(t: string)
    ensures IsKeToken(t) ==> Digit(t[2]) > 0
  {
  }

  // ---- A "=" in a word ----

  // The first word and what follows it.
  lemma {:induction false} SwanStart(ws: seq<Word>)
    requires AreWords(ws) && ws != []
    ensures StrongSwan(ws) ==
            if |ws| == 1 then SwanToken(ws[0]) else SwanToken(ws[0]) + ['-'] + StrongSwan(ws[1..])
    ensures |StrongSwan(ws)| >= |ws[0].text|
  {
    assert SwanTokens(ws)[1..] == SwanTokens(ws[1..]);
  }

  // The words an assignment of `v` gives.
  function Assigned(key: string, v: string): seq<Word> {
    if key == "ke" then [Word(0, v)] else if IsAddKe(key) then [Word(Digit(key[5]), v)] else []
  }

  // The words of strongSwan's spelling are then those of one value, if any.
  lemma {:induction false} OneValue(ws: seq<Word>)
    requires AreWords(ws) && ws != [] && '=' in StrongSwan(ws)
    ensures var s := StrongSwan(ws);
            Words(s) == Assigned(Lower(Cut(s).0), Cut(s).1)
    ensures NoSpace(Cut(StrongSwan(ws)).1)
  {
    hide Words, Lower, Strip, IsSpace, StrongSwan, Value, Cut, Digit;
    var s := StrongSwan(ws);
    SwanText(ws);
    StripNothing(s);
    CutIs(s);
    var (a, b) := Cut(s);
    forall c | c in a || c in b ensures !IsSpace(c) && c != '+' {
      assert c in a + "=" + b;
    }
    StripNothing(a);
    ValueIs(0, b);
    if IsAddKe(Lower(a)) {
      ValueIs(Digit(Lower(a)[5]), b);
    }
  }

  lemma {:induction false} WrongLength(w: Word, key: string, v: string)
    requires NoSpace(w.text) && NoSpace(v) && |w.text| != |v|
    ensures !IsRead(w, Assigned(key, v))
  {
    StripNothing(w.text);
    StripNothing(v);
    hide Strip, IsSpace, IsAddKe, Digit;
  }

  lemma {:induction false} WrongKey(w: Word, key: string, v: string)
    requires if w.slot == 0 then key != "ke" else !IsAddKe(key)
    ensures !IsRead(w, Assigned(key, v))
  {
    AddKeSlot(key);
    hide Strip, Lower, IsAddKe, Digit;
  }

  // One of the first two words is lost.
  lemma {:induction false} EqualsIsLost(ws: seq<Word>, i: nat)
    requires AreWords(ws) && i < |ws| && '=' in ws[i].text
    ensures var read := Words(StrongSwan(ws));
            !IsRead(ws[0], read) || (|ws| > 1 && !IsRead(ws[1], read))
  {
    hide Words, IsSpace, Strip, Cut, StrongSwan, IsRead, SwanToken, IsAddKe, Assigned, Lower;
    SwanText(ws);
    OneValue(ws);
    var (a, v) := Cut(StrongSwan(ws));
    if |ws[0].text| != |v| {
      WrongLength(ws[0], Lower(a), v);
    } else if |ws| > 1 && |ws[1].text| != |v| {
      WrongLength(ws[1], Lower(a), v);
    } else {
      KeyIsOther(ws);
      WrongKey(ws[0], Lower(a), v);
    }
  }

  lemma {:induction false} KeyIsOther(ws: seq<Word>)
    requires AreWords(ws) && ws != [] && '=' in StrongSwan(ws)
    requires var v := Cut(StrongSwan(ws)).1; |ws[0].text| == |v| && (|ws| > 1 ==> |ws[1].text| == |v|)
    ensures var key := Lower(Cut(StrongSwan(ws)).0);
            if ws[0].slot == 0 then key != "ke" else !IsAddKe(key)
  {
    hide IsSpace, Cut, StrongSwan, SwanToken, IsAddKe, Lower;
    var (a, v) := Cut(StrongSwan(ws));
    CutIs(StrongSwan(ws));
    SwanStart(ws);
    if |ws| > 1 {
      SwanStart(ws[1..]);
      assert ws[1] == ws[1..][0];
    }
    NoSuchKey(ws[0], if |ws| == 1 then "" else ['-'] + StrongSwan(ws[1..]), a, v);
  }

  lemma {:induction false} AddKeSlot(key: string)
    ensures IsAddKe(key) ==> Digit(key[5]) > 0
  {
  }

  // A text that starts with the token of a word cannot assign a value of the same length to its slot.
  lemma {:induction false} NoSuchKey(w: Word, rest: string, a: string, v: string)
    requires w.slot <= 7 && IsWord(w.text) && |w.text| == |v|
    requires SwanToken(w) + rest == a + "=" + v
    requires rest != "" ==> |rest| > |v| && rest[0] == '-'
    ensures w.slot == 0 ==> Lower(a) != "ke"
    ensures w.slot > 0 ==> !IsAddKe(Lower(a))
  {
    hide IsSpace;
    var s := SwanToken(w) + rest;
    assert |s| == |a| + 1 + |v| && s[|a|] == '=';
    assert forall k | 0 <= k < |a| :: s[k] == a[k];
    if w.slot == 0 {
      assert rest != "" ==> s[|v|] == '-';
      assert LowerChar('-') == '-';
    } else {
      assert s[0] == 'k';
      assert LowerChar('k') == 'k';
      assert IsAddKe(Lower(a)) ==> Lower(a)[..5][0] == 'a';
    }
  }

  // ---- Both directions ----

  // The strongSwan spelling of an offer.
  function StrongSwanOf(os: seq<Offer>): string
    requires AllFit(os)
  {
    FlatAreWords(os);
    StrongSwan(Flat(os))
  }

  /** The parser reads the two spellings of an offer alike, whatever words it knows, if and only if no word
      holds a "-" or a "=", and no word for the primary exchange looks like a token for another slot. */
  lemma {:induction false} DialectsAgree(os: seq<Offer>)
    requires AllFit(os)
    ensures (forall known: Catalogue :: ProposalSlots(known, Libreswan(os)) == ProposalSlots(known, StrongSwanOf(os)))
            <==> forall i | 0 <= i < |Flat(os)| :: IsPlain(Flat(os)[i])
  {
    hide Fill, Mentions, Libreswan, StrongSwan, Words, IsPlain, Everything;
    var ws := Flat(os);
    FlatAreWords(os);
    LibreswanReads(os);
    if forall i | 0 <= i < |ws| :: IsPlain(ws[i]) {
      forall known: Catalogue ensures ProposalSlots(known, Libreswan(os)) == ProposalSlots(known, StrongSwanOf(os)) {
        PlainAgree(known, ws);
      }
    } else {
      NotPlainDiffer(ws);
      assert ProposalSlots(Everything(), Libreswan(os)) != ProposalSlots(Everything(), StrongSwanOf(os));
    }
  }

  lemma {:induction false} PlainAgree(known: Catalogue, ws: seq<Word>)
    requires AreWords(ws) && forall i | 0 <= i < |ws| :: IsPlain(ws[i])
    ensures ProposalSlots(known, StrongSwan(ws)) == Fill(Mentions(known, ws))
  {
    hide Fill, Mentions, StrongSwan, Words;
    StrongSwanReads(ws);
    SameMentions(known, ws);
  }

  lemma {:induction false} NotPlainDiffer(ws: seq<Word>)
    requires AreWords(ws) && exists i :: 0 <= i < |ws| && !IsPlain(ws[i])
    ensures ProposalSlots(Everything(), StrongSwan(ws)) != Fill(Mentions(Everything(), ws))
  {
    hide Fill, Mentions, StrongSwan, Words, Everything, IsKeToken, Lower, IsRead;
    var read := Words(StrongSwan(ws));
    var lost: nat;
    if i :| 0 <= i < |ws| && '=' in ws[i].text {
      EqualsIsLost(ws, i);
      lost := if IsRead(ws[0], read) then 1 else 0;
    } else if i :| 0 <= i < |ws| && '-' in ws[i].text {
      DashIsLost(ws, i);
      lost := i;
    } else {
      var i :| 0 <= i < |ws| && !IsPlain(ws[i]);
      SlotIsMistaken(ws, i);
      lost := i;
    }
    UnreadDiffers(ws, read, lost);
  }

  /** "ml-kem-768" is a word for ML-KEM-768 that only Libreswan's spelling can carry: strongSwan's
      "ke1_ml-kem-768" is three words, none of them a key exchange. */
  lemma {:induction false} HyphenatedWord(known: Catalogue)
    requires known("ml-kem-768") == Some(MlKem(768))
    requires known("ml") == None && known("kem") == None && known("768") == None
    ensures ProposalSlots(known, "addke1=ml-kem-768") == map[1 := [MlKem(768)]]
    ensures ProposalSlots(known, "ke1_ml-kem-768") == map[]
  {
    HyphenatedLibreswan(known);
    HyphenatedStrongSwan(known);
  }

  lemma {:induction false} PlainMention(known: Catalogue, slot: nat, w: string)
    requires NoSpace(w) && Lower(w) == w
    ensures MentionOf(known, Word(slot, w)) == Mention(slot, known(w))
  {
    StripNothing(w);
    hide Strip, Lower;
  }

  function OneOffer(w: string): seq<Offer> {
    [Offer(1, [w])]
  }

  lemma {:induction false} OneOfferIs(w: string)
    requires IsWord(w)
    ensures AllFit(OneOffer(w)) && Flat(OneOffer(w)) == [Word(1, w)] && Libreswan(OneOffer(w)) == "addke1=" + w
  {
    hide IsWord;
    var os := OneOffer(w);
    assert os[1..] == [] && [w][1..] == [];
    assert ForSlot(1, [w]) == [Word(1, w)] + ForSlot(1, [w][1..]) == [Word(1, w)];
    assert Flat(os) == ForSlot(1, [w]) + Flat(os[1..]) == [Word(1, w)];
    assert SlotChar(1) == '1';
    assert "addke" + ['1'] + "=" + w == "addke1=" + w;
    assert LibreSegments(os) == [LibreSegment(os[0])] + [];
  }

  lemma {:induction false} WordHasNoSpace(w: string)
    requires IsWord(w)
    ensures NoSpace(w)
  {
  }

  lemma {:induction false} OneMention(known: Catalogue, w: Word)
    ensures Mentions(known, [w]) == [MentionOf(known, w)]
  {
    hide MentionOf;
    assert [w][..0] == [];
    assert Mentions(known, [w]) == Mentions(known, []) + [MentionOf(known, w)];
  }

  lemma {:induction false} FillOne(m: Method)
    ensures Fill([Mention(1, Some(m))]) == map[1 := [m]]
  {
    var mention := Mention(1, Some(m));
    FillGrows([], mention);
    hide Fill;
    assert [] + [mention] == [mention] && [] + [m] == [m];
  }

  lemma {:induction false} LiterallyLibreswan()
    ensures "addke1=" + "ml-kem-768" == "addke1=ml-kem-768"
  {
  }

  lemma {:induction false} LiterallySimple()
    ensures IsWord("ml-kem-768") && Lower("ml-kem-768") == "ml-kem-768"
  {
    var w := "ml-kem-768";
    assert forall i | 0 <= i < |w| :: IsSimple(w[i]);
    hide IsSimple, IsWord, Lower;
    SimpleIsWord(w);
  }

  lemma {:induction false} OneWordIsRead(known: Catalogue, w: string, m: Method)
    requires IsWord(w) && Lower(w) == w && known(w) == Some(m)
    ensures ProposalSlots(known, "addke1=" + w) == map[1 := [m]]
  {
    hide Lower, Words, Libreswan, OneOffer, Flat, Fill, Mentions, MentionOf;
    WordHasNoSpace(w);
    hide IsWord;
    OneOfferIs(w);
    LibreswanReads(OneOffer(w));
    OneMention(known, Word(1, w));
    PlainMention(known, 1, w);
    FillOne(m);
  }

  lemma {:induction false} HyphenatedLibreswan(known: Catalogue)
    requires known("ml-kem-768") == Some(MlKem(768))
    ensures ProposalSlots(known, "addke1=ml-kem-768") == map[1 := [MlKem(768)]]
  {
    hide IsWord, Lower, ProposalSlots;
    LiterallySimple();
    LiterallyLibreswan();
    OneWordIsRead(known, "ml-kem-768", MlKem(768));
  }

  // What strongSwan's spelling of it is taken for.
  function Pieces(): seq<Word> {
    [Word(1, "ml"), Word(0, "kem"), Word(0, "768")]
  }

  lemma {:induction false} ShortIsPlain(slot: nat, w: string)
    requires slot <= 7 && 0 < |w| <= 3 && forall i | 0 <= i < |w| :: IsSimple(w[i]) && w[i] != '-'
    ensures IsPlain(Word(slot, w)) && IsWord(w) && Lower(w) == w
  {
    SimpleIsWord(w);
    hide IsWord, Lower;
  }

  lemma {:induction false} PieceIsPlain(slot: nat, w: string)
    requires slot <= 7 && (w == "ml" || w == "kem" || w == "768")
    ensures IsPlain(Word(slot, w)) && IsWord(w) && Lower(w) == w
  {
    hide IsPlain, IsWord, Lower;
    ShortIsPlain(slot, w);
  }

  lemma {:induction false} PiecesArePlain()
    ensures AreWords(Pieces()) && forall i | 0 <= i < 3 :: IsPlain(Pieces()[i])
  {
    PieceIsPlain(1, "ml");
    PieceIsPlain(0, "kem");
    PieceIsPlain(0, "768");
    hide IsPlain, IsWord;
  }

  lemma {:induction false} NoPieceIsNamed(known: Catalogue, slot: nat, w: string)
    requires slot <= 7 && (w == "ml" || w == "kem" || w == "768") && known(w) == None
    ensures MentionOf(known, Word(slot, w)).named == None
  {
    PieceIsPlain(slot, w);
    hide Lower, Strip, MentionOf, IsPlain;
    WordHasNoSpace(w);
    hide IsWord;
    PlainMention(known, slot, w);
  }

  lemma {:induction false} PiecesNameNothing(known: Catalogue)
    requires known("ml") == None && known("kem") == None && known("768") == None
    ensures Fill(Mentions(known, Pieces())) == map[]
  {
    hide MentionOf, Fill, Mentions;
    NoPieceIsNamed(known, 1, "ml");
    NoPieceIsNamed(known, 0, "kem");
    NoPieceIsNamed(known, 0, "768");
    MentionsAt(known, Pieces());
    NothingNamed(Mentions(known, Pieces()));
  }

  lemma {:induction false} HyphenatedStrongSwan(known: Catalogue)
    requires known("ml") == None && known("kem") == None && known("768") == None
    ensures ProposalSlots(known, "ke1_ml-kem-768") == map[]
  {
    PiecesArePlain();
    SwanIs();
    hide StrongSwan, IsPlain, ProposalSlots, Pieces;
    assert |Pieces()| == 3 by { PiecesCount(); }
    PlainAgree(known, Pieces());
    PiecesNameNothing(known);
  }

  lemma {:induction false} PiecesCount()
    ensures |Pieces()| == 3
  {
  }

  lemma {:induction false} MentionsAt(known: Catalogue, ws: seq<Word>)
    ensures |Mentions(known, ws)| == |ws|
    ensures forall i | 0 <= i < |ws| :: Mentions(known, ws)[i] == MentionOf(known, ws[i])
    decreases |ws|
  {
    hide MentionOf;
    if ws != [] {
      MentionsAt(known, ws[..|ws| - 1]);
    }
  }

  lemma {:induction false} SwanIs()
    requires AreWords(Pieces())
    ensures StrongSwan(Pieces()) == "ke1_ml-kem-768"
  {
    assert SlotChar(1) == '1';
    var toks := SwanTokens(Pieces());
    assert toks[0] == "ke1_ml" && toks[1] == "kem" && toks[2] == "768";
    hide SwanTokens, SwanToken;
    assert JoinWith(toks[1..][1..], '-') == "768";
    assert JoinWith(toks[1..], '-') == "kem-768";
  }

  lemma {:induction false} NothingNamed(ms: seq<Mention>)
    requires forall i | 0 <= i < |ms| :: ms[i].named == None
    ensures Fill(ms) == map[]
    decreases |ms|
  {
    if ms != [] {
      NothingNamed(ms[..|ms| - 1]);
    }
  }
}
