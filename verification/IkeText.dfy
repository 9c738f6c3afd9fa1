/**
  The text of IKE proposals: how the words of strongSwan's and of Libreswan's spelling are told apart.  What
  a single word names (`_ke_method`, once it is stripped and lower-cased) is given.
 */
module IkeText {
  import opened Options
  import opened Text
  import opened IkeProposal

  // The key exchange a stripped, lower-case word names.
  type Catalogue = string -> Option<Method>

  // ---- The parser ----

  // A word as it is cut from the text, and the slot it is for.
  datatype Word = Word(slot: nat, text: string)

  function Digit(c: char): nat {
    if '0' <= c <= '9' then c as int - '0' as int else 0
  }

  predicate IsSlot(c: char) {
    '1' <= c <= '7'
  }

  // re.fullmatch(r"ke([1-7])_(.+)", t)
  predicate IsKeToken(t: string) {
    |t| > 4 && t[..2] == "ke" && IsSlot(t[2]) && t[3] == '_' && '\n' !in t[4..]
  }

  // re.fullmatch(r"addke([1-7])", t)
  predicate IsAddKe(t: string) {
    |t| == 6 && t[..5] == "addke" && IsSlot(t[5])
  }

  function ForSlot(slot: nat, alternatives: seq<string>): seq<Word> {
    if alternatives == [] then [] else [Word(slot, alternatives[0])] + ForSlot(slot, alternatives[1..])
  }

  function Value(slot: nat, value: string): seq<Word> {
    ForSlot(slot, Split(value, '+'))
  }

  function Token(tok: string): seq<Word> {
    var t := Lower(Strip(tok));
    if IsKeToken(t) then Value(Digit(t[2]), t[4..]) else Value(0, tok)
  }

  function Tokens(toks: seq<string>): seq<Word> {
    if toks == [] then [] else Token(toks[0]) + Tokens(toks[1..])
  }

  // The text before the first "=", and the text after it.
  function Cut(s: string): (string, string)
    requires '=' in s
  {
    if s[0] == '=' then ("", s[1..]) else ([s[0]] + Cut(s[1..]).0, Cut(s[1..]).1)
  }

  function Assignment(key0: string, value: string): seq<Word> {
    var key := Lower(Strip(key0));
    if key == "ke" then Value(0, value) else if IsAddKe(key) then Value(Digit(key[5]), value) else []
  }

  function Segment(seg0: string): seq<Word> {
    var seg := Strip(seg0);
    if seg == "" then []
    else if '=' in seg then Assignment(Cut(seg).0, Cut(seg).1)
    else Tokens(Split(seg, '-'))
  }

  function Segments(segs: seq<string>): seq<Word> {
    if segs == [] then [] else Segment(segs[0]) + Segments(segs[1..])
  }

  function Words(text: string): seq<Word> {
    Segments(Split(StripRight(Strip(text), '!'), ';'))
  }

  function MentionOf(known: Catalogue, w: Word): Mention {
    Mention(w.slot, known(Lower(Strip(w.text))))
  }

  function Mentions(known: Catalogue, ws: seq<Word>): seq<Mention> {
    if ws == [] then [] else Mentions(known, ws[..|ws| - 1]) + [MentionOf(known, ws[|ws| - 1])]
  }

  function ProposalSlots(known: Catalogue, text: string): Slots {
    Fill(Mentions(known, Words(text)))
  }

  // ---- What separates words ----

  // The text gives one of the additional slots a word: "ke", the slot, "_" and the word.
  ghost predicate NamesSlot(t: string, slot: nat, word: string) {
    && 1 <= slot <= 7 && word != "" && '\n' !in word
    && t == "ke" + ["01234567"[slot]] + "_" + word
  }

  /** A token is for the slot it names, and otherwise, as a whole, for the primary exchange. */
  lemma {:induction false} TokenMeans(tok: string)
    ensures forall slot: nat, word | NamesSlot(Lower(Strip(tok)), slot, word) :: Token(tok) == Value(slot, word)
    ensures (forall slot: nat, word :: !NamesSlot(Lower(Strip(tok)), slot, word)) ==> Token(tok) == Value(0, tok)
  {
    hide Lower, Strip, Value;
    var t := Lower(Strip(tok));
    DigitsAre();
    forall slot: nat, word | NamesSlot(t, slot, word) ensures Token(tok) == Value(slot, word) {
      assert t[..2] == "ke" && t[2] == "01234567"[slot] && t[3] == '_' && t[4..] == word;
    }
    if IsKeToken(t) {
      assert t == t[..2] + [t[2]] + [t[3]] + t[4..];
      assert t[2] == "01234567"[Digit(t[2])];
      assert NamesSlot(t, Digit(t[2]), t[4..]);
    }
  }

  lemma {:induction false} DigitsAre()
    ensures forall k | 0 <= k <= 7 :: "01234567"[k] as int == '0' as int + k
  {
    var d := "01234567";
    assert d[0] == '0' && d[1] == '1' && d[2] == '2' && d[3] == '3';
    assert d[4] == '4' && d[5] == '5' && d[6] == '6' && d[7] == '7';
  }

  /** An assignment is to the primary exchange, to the slot its key names, or to nothing. */
  lemma {:induction false} AssignmentMeans(key: string, value: string)
    ensures Lower(Strip(key)) == "ke" ==> Assignment(key, value) == Value(0, value)
    ensures forall slot: nat | 1 <= slot <= 7 && Lower(Strip(key)) == "addke" + ["01234567"[slot]] ::
              Assignment(key, value) == Value(slot, value)
    ensures (Lower(Strip(key)) != "ke"
             && forall slot | 1 <= slot <= 7 :: Lower(Strip(key)) != "addke" + ["01234567"[slot]]) ==>
              Assignment(key, value) == []
  {
    hide Lower, Strip, Value;
    var t := Lower(Strip(key));
    DigitsAre();
    forall slot: nat | 1 <= slot <= 7 && t == "addke" + ["01234567"[slot]]
      ensures Assignment(key, value) == Value(slot, value)
    {
      assert |t| == 6 && t[..5] == "addke" && t[5] == "01234567"[slot];
    }
    if IsAddKe(t) {
      assert t == t[..5] + [t[5]];
      assert t[5] == "01234567"[Digit(t[5])];
    }
  }

  /** White space around a proposal, a segment, a key or a word is dropped, and so are the "!" behind it. */
  lemma {:induction false} PaddingIsDropped(known: Catalogue, before: string, s: string, after: string, slot: nat,
                                            bangs: string)
    requires AllSpace(before) && AllSpace(after) && s != "" && !IsSpace(s[0]) && !IsSpace(s[|s| - 1])
    requires forall c | c in bangs :: c == '!'
    ensures Words(before + (s + bangs) + after) == Words(s)
    ensures Segment(before + s + after) == Segment(s)
    ensures forall value :: Assignment(before + s + after, value) == Assignment(s, value)
    ensures MentionOf(known, Word(slot, before + s + after)) == MentionOf(known, Word(slot, s))
  {
    assert !IsSpace('!');
    hide IsSpace, Split, Cut, Segments, Tokens, Lower, IsAddKe, Value, Strip;
    assert "" + s + "" == s;
    StripPadded("", s, "");
    StripPadded(before, s, after);
    var t := s + bangs;
    assert t[0] == s[0] && (bangs != "" ==> t[|t| - 1] in bangs);
    assert bangs == "" ==> t == s;
    StripPadded(before, t, after);
    BangsDropped(s, bangs);
  }

  lemma {:induction false} BangsDropped(s: string, bangs: string)
    requires forall c | c in bangs :: c == '!'
    ensures StripRight(s + bangs, '!') == StripRight(s, '!')
    decreases |bangs|
  {
    var t := s + bangs;
    if bangs == "" {
      assert t == s;
    } else {
      var n := |bangs| - 1;
      assert bangs[n] in bangs && t[|t| - 1] == bangs[n] && t[..|t| - 1] == s + bangs[..n];
      assert forall c | c in bangs[..n] :: c in bangs;
      BangsDropped(s, bangs[..n]);
    }
  }

  // ---- The loops ----

  lemma {:induction false} MentionsGrow(known: Catalogue, ws: seq<Word>, w: Word)
    ensures Fill(Mentions(known, ws + [w])) == AddMention(Fill(Mentions(known, ws)), MentionOf(known, w))
  {
    hide Fill, AddMention, MentionOf;
    assert (ws + [w])[..|ws|] == ws;
    FillGrows(Mentions(known, ws), MentionOf(known, w));
  }

  /** `add`: the alternatives of one value go to one slot. */
  method Add(known: Catalogue, slots0: Slots, slot: nat, value: string, ghost done: seq<Word>) returns (slots: Slots)
    requires slots0 == Fill(Mentions(known, done))
    ensures slots == Fill(Mentions(known, done + Value(slot, value)))
  {
    hide Mentions, Fill, AddMention, Split;
    slots := slots0;
    var alternatives := Split(value, '+');
    ghost var before := done;
    var i := 0;
    while i < |alternatives|
      invariant i <= |alternatives|
      invariant slots == Fill(Mentions(known, before))
      invariant done + Value(slot, value) == before + ForSlot(slot, alternatives[i..])
    {
      var w := Word(slot, alternatives[i]);
      MentionsGrow(known, before, w);
      Moves(before, w, ForSlot(slot, alternatives[i + 1..]));
      assert alternatives[i..][1..] == alternatives[i + 1..];
      slots := AddOne(slots, MentionOf(known, w));
      before := before + [w];
      i := i + 1;
    }
    assert before + [] == before;
  }

  method AddOne(slots0: Slots, m: Mention) returns (slots: Slots)
    ensures slots == AddMention(slots0, m)
  {
    slots := slots0;
    if m.named.Some? && m.named.value !in MethodsOf(slots, m.slot) {
      slots := slots[m.slot := MethodsOf(slots, m.slot) + [m.named.value]];
    }
  }

  lemma {:induction false} Moves<T>(a: seq<T>, x: T, b: seq<T>)
    ensures a + ([x] + b) == (a + [x]) + b
  {
  }

  lemma {:induction false} Regroups<T>(a: seq<T>, b: seq<T>, c: seq<T>)
    ensures a + (b + c) == (a + b) + c && a + [] == a == [] + a
  {
  }

  /** One segment: an assignment, or tokens. */
  method AddSegment(known: Catalogue, slots0: Slots, seg0: string, ghost done: seq<Word>) returns (slots: Slots)
    requires slots0 == Fill(Mentions(known, done))
    ensures slots == Fill(Mentions(known, done + Segment(seg0)))
  {
    hide Mentions, Fill, Split, Strip, Lower, Value, Cut, IsKeToken, IsAddKe;
    slots := slots0;
    var seg := Strip(seg0);
    Regroups(done, [], []);
    if seg == "" {
      return;
    }
    if '=' in seg {
      var (key0, value) := Cut(seg);
      var key := Lower(Strip(key0));
      if key == "ke" {
        slots := Add(known, slots, 0, value, done);
      } else if IsAddKe(key) {
        slots := AddTo(known, slots, key, value, done);
      }
      return;
    }
    slots := AddTokens(known, slots, Split(seg, '-'), done);
  }

  method AddTo(known: Catalogue, slots0: Slots, key: string, value: string, ghost done: seq<Word>)
    returns (slots: Slots)
    requires slots0 == Fill(Mentions(known, done)) && IsAddKe(key)
    ensures slots == Fill(Mentions(known, done + Value(Digit(key[5]), value)))
  {
    hide Mentions, Fill, Value;
    slots := Add(known, slots0, Digit(key[5]), value, done);
  }

  /** The loop over the tokens of a segment. */
  method AddTokens(known: Catalogue, slots0: Slots, toks: seq<string>, ghost done: seq<Word>) returns (slots: Slots)
    requires slots0 == Fill(Mentions(known, done))
    ensures slots == Fill(Mentions(known, done + Tokens(toks)))
  {
    hide Mentions, Fill, Token;
    slots := slots0;
    ghost var before := done;
    var i := 0;
    while i < |toks|
      invariant i <= |toks|
      invariant slots == Fill(Mentions(known, before))
      invariant done + Tokens(toks) == before + Tokens(toks[i..])
    {
      assert toks[i..][1..] == toks[i + 1..];
      Regroups(before, Token(toks[i]), Tokens(toks[i + 1..]));
      slots := AddToken(known, slots, toks[i], before);
      before := before + Token(toks[i]);
      i := i + 1;
    }
    Regroups(before, [], []);
  }

  method AddToken(known: Catalogue, slots0: Slots, tok: string, ghost done: seq<Word>) returns (slots: Slots)
    requires slots0 == Fill(Mentions(known, done))
    ensures slots == Fill(Mentions(known, done + Token(tok)))
  {
    hide Mentions, Fill, Value, Lower, Strip;
    var t := Lower(Strip(tok));
    if IsKeToken(t) {
      slots := Add(known, slots0, Digit(t[2]), t[4..], done);
    } else {
      slots := Add(known, slots0, 0, tok, done);
    }
  }

  /** The parser: the loop over the segments of a proposal. */
  method ParseProposal(known: Catalogue, text: string) returns (slots: Slots)
    ensures slots == ProposalSlots(known, text)
  {
    hide Segment, Split, Strip, StripRight;
    var segs := Split(StripRight(Strip(text), '!'), ';');
    slots := map[];
    ghost var before: seq<Word> := [];
    Regroups([], Segments(segs), []);
    var i := 0;
    while i < |segs|
      invariant i <= |segs|
      invariant slots == Fill(Mentions(known, before))
      invariant Words(text) == before + Segments(segs[i..])
    {
      hide Mentions, Fill;
      assert segs[i..][1..] == segs[i + 1..];
      Regroups(before, Segment(segs[i]), Segments(segs[i + 1..]));
      slots := AddSegment(known, slots, segs[i], before);
      before := before + Segment(segs[i]);
      i := i + 1;
    }
    Regroups(before, [], []);
  }
}
