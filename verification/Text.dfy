/** Python's string operations, as far as they are used: strip, lower, split and join. */
module Text {
  // str.isspace of one character.
  predicate IsSpace(c: char) {
    var u := c as int;
    || 0x09 <= u <= 0x0D || 0x1C <= u <= 0x20 || u == 0x85 || u == 0xA0 || u == 0x1680
    || 0x2000 <= u <= 0x200A || u == 0x2028 || u == 0x2029 || u == 0x202F || u == 0x205F || u == 0x3000
  }

  function Strip(s: string): string {
    if s == "" then ""
    else if IsSpace(s[0]) then Strip(s[1..])
    else if IsSpace(s[|s| - 1]) then Strip(s[..|s| - 1])
    else s
  }

  // s.rstrip(c)
  function StripRight(s: string, c: char): string {
    if s != "" && s[|s| - 1] == c then StripRight(s[..|s| - 1], c) else s
  }

  // Of ASCII letters.
  function LowerChar(c: char): char {
    if 'A' <= c <= 'Z' then (c as int + 32) as char else c
  }

  function Lower(s: string): (r: string)
    ensures |r| == |s| && forall i | 0 <= i < |s| :: r[i] == LowerChar(s[i])
  {
    if s == "" then "" else [LowerChar(s[0])] + Lower(s[1..])
  }

  // s.split(sep)
  function Split(s: string, sep: char): (r: seq<string>)
    ensures r != []
  {
    if s == "" then [""]
    else
      var r := Split(s[1..], sep);
      if s[0] == sep then [""] + r else [[s[0]] + r[0]] + r[1..]
  }

  // sep.join(ws)
  function JoinWith(ws: seq<string>, sep: char): string {
    if ws == [] then "" else if |ws| == 1 then ws[0] else ws[0] + [sep] + JoinWith(ws[1..], sep)
  }

  // ---- What these operations mean ----

  // Every character that counts as white space.
  const WHITE_SPACE: string :=
    "\t\n\U{0B}\U{0C}\r\U{1C}\U{1D}\U{1E}\U{1F} \U{85}\U{A0}\U{1680}" +
    "\U{2000}\U{2001}\U{2002}\U{2003}\U{2004}\U{2005}\U{2006}\U{2007}\U{2008}\U{2009}\U{200A}" +
    "\U{2028}\U{2029}\U{202F}\U{205F}\U{3000}"

  const UPPER: string := "ABCDEFGHIJKLMNOPQRSTUVWXYZ"
  const LOWER: string := "abcdefghijklmnopqrstuvwxyz"

  lemma {:induction false} SpaceMeans(c: char)
    ensures IsSpace(c) <==> c in WHITE_SPACE
  {
    var w := WHITE_SPACE;
    assert |w| == 29;
    assert forall i | 0 <= i < 29 :: IsSpace(w[i]);
    var u := c as int;
    if 0x09 <= u <= 0x0D {
      assert w[u - 0x09] == c;
    } else if 0x1C <= u <= 0x20 {
      assert w[5 + u - 0x1C] == c;
    } else if u == 0x85 {
      assert w[10] == c;
    } else if u == 0xA0 {
      assert w[11] == c;
    } else if u == 0x1680 {
      assert w[12] == c;
    } else if 0x2000 <= u <= 0x200A {
      assert w[13 + u - 0x2000] == c;
    } else if u == 0x2028 || u == 0x2029 {
      assert w[24 + u - 0x2028] == c;
    } else if u == 0x202F {
      assert w[26] == c;
    } else if u == 0x205F {
      assert w[27] == c;
    } else if u == 0x3000 {
      assert w[28] == c;
    }
  }

  ghost predicate AllSpace(s: string) {
    forall c | c in s :: IsSpace(c)
  }

  // `r` is what is left of s between white space, which it has none of at its ends.
  ghost predicate StripsTo(s: string, r: string, before: string, after: string) {
    && s == before + r + after && AllSpace(before) && AllSpace(after)
    && (r != "" ==> !IsSpace(r[0]) && !IsSpace(r[|r| - 1]))
  }

  lemma {:induction false} StripMeans(s: string) returns (before: string, after: string)
    ensures StripsTo(s, Strip(s), before, after)
    decreases |s|
  {
    hide IsSpace, StripsTo;
    if s != "" && IsSpace(s[0]) {
      before, after := StripMeans(s[1..]);
      StripsLeft(s, Strip(s), before, after);
      before := [s[0]] + before;
    } else if s != "" && IsSpace(s[|s| - 1]) {
      var n := |s| - 1;
      before, after := StripMeans(s[..n]);
      StripsRight(s, Strip(s), before, after);
      after := after + [s[n]];
    } else {
      before, after := "", "";
      StripsNothing(s);
    }
  }

  lemma {:induction false} StripsLeft(s: string, r: string, before: string, after: string)
    requires s != "" && IsSpace(s[0]) && StripsTo(s[1..], r, before, after)
    ensures StripsTo(s, r, [s[0]] + before, after)
  {
    hide IsSpace, AllSpace;
    SpaceJoined([s[0]], before);
    assert s == [s[0]] + s[1..];
  }

  lemma {:induction false} StripsRight(s: string, r: string, before: string, after: string)
    requires s != "" && IsSpace(s[|s| - 1]) && StripsTo(s[..|s| - 1], r, before, after)
    ensures StripsTo(s, r, before, after + [s[|s| - 1]])
  {
    hide IsSpace, AllSpace;
    SpaceJoined(after, [s[|s| - 1]]);
    assert s == s[..|s| - 1] + [s[|s| - 1]];
  }

  lemma {:induction false} StripsNothing(s: string)
    requires s != "" ==> !IsSpace(s[0]) && !IsSpace(s[|s| - 1])
    ensures StripsTo(s, s, "", "")
  {
    hide IsSpace, AllSpace;
    SpaceJoined("", "");
    assert "" + s + "" == s;
  }

  lemma {:induction false} SpaceJoined(a: string, b: string)
    ensures AllSpace("") && forall c | IsSpace(c) :: AllSpace([c])
    ensures AllSpace(a) && AllSpace(b) ==> AllSpace(a + b)
  {
    hide IsSpace;
  }

  /** White space around a text is dropped. */
  lemma {:induction false} StripPadded(before: string, s: string, after: string)
    requires AllSpace(before) && AllSpace(after) && (s != "" ==> !IsSpace(s[0]) && !IsSpace(s[|s| - 1]))
    ensures Strip(before + s + after) == s
    decreases |before| + |after|
  {
    hide IsSpace;
    var t := before + s + after;
    if before != "" {
      assert t[0] == before[0] && t[1..] == before[1..] + s + after;
      assert before[0] in before && forall c | c in before[1..] :: c in before;
      StripPadded(before[1..], s, after);
    } else if after != "" {
      var n := |after| - 1;
      assert t[|t| - 1] == after[n] && t[..|t| - 1] == before + s + after[..n];
      assert after[n] in after && forall c | c in after[..n] :: c in after;
      StripPadded(before, s, after[..n]);
      if IsSpace(t[0]) {
        assert s == "" && t == after && forall c | c in t[1..] :: c in after;
        StripBlank(t);
      }
    } else {
      assert t == s;
    }
  }

  lemma {:induction false} StripBlank(s: string)
    requires AllSpace(s)
    ensures Strip(s) == ""
  {
    hide IsSpace;
    if s != "" {
      assert s[0] in s && forall c | c in s[1..] :: c in s;
      StripBlank(s[1..]);
    }
  }

  // Just the trailing occurrences of the character are dropped.
  lemma {:induction false} StripRightMeans(s: string, c: char)
    ensures var r := StripRight(s, c);
            && |r| <= |s| && s[..|r|] == r && (forall i | |r| <= i < |s| :: s[i] == c)
            && (r != "" ==> r[|r| - 1] != c)
  {
    if s != "" && s[|s| - 1] == c {
      StripRightMeans(s[..|s| - 1], c);
    }
  }

  /** Each letter of the upper alphabet becomes that of the lower one, everything else stays. */
  lemma {:induction false} LowerMeans(s: string, i: nat)
    requires i < |s|
    ensures |Lower(s)| == |s|
    ensures forall k | 0 <= k < 26 && UPPER[k] == s[i] :: Lower(s)[i] == LOWER[k]
    ensures s[i] !in UPPER ==> Lower(s)[i] == s[i]
  {
    assert |UPPER| == 26 && |LOWER| == 26;
    assert forall k | 0 <= k < 26 :: UPPER[k] as int == 65 + k && LOWER[k] as int == 97 + k;
    if 'A' <= s[i] <= 'Z' {
      assert UPPER[s[i] as int - 65] == s[i];
    }
  }

  ghost predicate NoSpace(s: string) {
    forall c | c in s :: !IsSpace(c)
  }

  lemma {:induction false} StripNothing(s: string)
    requires NoSpace(s)
    ensures Strip(s) == s
  {
    hide IsSpace;
  }

  lemma {:induction false} StripKeeps(s: string, c: char)
    requires c in Strip(s)
    ensures c in s
    decreases |s|
  {
    hide IsSpace;
    if s != "" && IsSpace(s[0]) {
      StripKeeps(s[1..], c);
    } else if s != "" && IsSpace(s[|s| - 1]) {
      StripKeeps(s[..|s| - 1], c);
    }
  }

  lemma {:induction false} LowerTwice(s: string)
    ensures Lower(Lower(s)) == Lower(s)
  {
  }

  // Characters that are no upper-case letter stay, and come from nothing else unless they are lower-case.
  lemma {:induction false} LowerKeeps(s: string, c: char)
    requires !('A' <= c <= 'Z') && !('a' <= c <= 'z')
    ensures c in Lower(s) <==> c in s
  {
    if c in s {
      var i :| 0 <= i < |s| && s[i] == c;
      assert Lower(s)[i] == c;
    }
  }

  lemma {:induction false} LowerNoSpace(s: string)
    requires NoSpace(s)
    ensures NoSpace(Lower(s))
  {
    forall c | c in Lower(s) ensures !IsSpace(c) {
      var i :| 0 <= i < |s| && Lower(s)[i] == c;
      assert s[i] in s;
    }
  }

  lemma {:induction false} SplitOne(s: string, sep: char)
    requires sep !in s
    ensures Split(s, sep) == [s]
  {
    if s != "" {
      SplitOne(s[1..], sep);
      assert s == [s[0]] + s[1..];
    }
  }

  lemma {:induction false} SplitAppend(a: string, sep: char, b: string)
    requires sep !in a
    ensures Split(a + [sep] + b, sep) == [a] + Split(b, sep)
    decreases |a|
  {
    var s := a + [sep] + b;
    if a == "" {
      assert s[0] == sep && s[1..] == b;
    } else {
      assert s[0] == a[0] && s[1..] == a[1..] + [sep] + b;
      SplitAppend(a[1..], sep, b);
      assert [a[0]] + a[1..] == a;
    }
  }

  /** Splitting undoes joining. */
  lemma {:induction false} SplitJoin(ws: seq<string>, sep: char)
    requires ws != [] && forall i | 0 <= i < |ws| :: sep !in ws[i]
    ensures Split(JoinWith(ws, sep), sep) == ws
    decreases |ws|
  {
    if |ws| == 1 {
      SplitOne(ws[0], sep);
    } else {
      SplitJoin(ws[1..], sep);
      SplitAppend(ws[0], sep, JoinWith(ws[1..], sep));
    }
  }

  /** Joining undoes splitting. */
  lemma {:induction false} JoinSplit(s: string, sep: char)
    ensures JoinWith(Split(s, sep), sep) == s
    decreases |s|
  {
    if s != "" {
      var r, pieces := Split(s[1..], sep), Split(s, sep);
      JoinSplit(s[1..], sep);
      assert s == [s[0]] + s[1..];
      if s[0] == sep {
        assert pieces[1..] == r;
      } else if |r| > 1 {
        assert pieces[1..] == r[1..];
      }
    }
  }

  // No piece holds the separator, nor a character that is not in the text.
  lemma {:induction false} SplitPieces(s: string, sep: char, i: nat)
    requires i < |Split(s, sep)|
    ensures sep !in Split(s, sep)[i]
    ensures forall c | c in Split(s, sep)[i] :: c in s
    decreases |s|
  {
    if s != "" {
      var r := Split(s[1..], sep);
      if s[0] == sep {
        if i > 0 {
          SplitPieces(s[1..], sep, i - 1);
        }
      } else {
        SplitPieces(s[1..], sep, i);
      }
    }
  }

  // What the characters of joined words can be.
  lemma {:induction false} JoinChars(ws: seq<string>, sep: char, c: char)
    requires c in JoinWith(ws, sep)
    ensures c == sep || exists i :: 0 <= i < |ws| && c in ws[i]
    decreases |ws|
  {
    if |ws| > 1 && c !in ws[0] && c != sep {
      JoinChars(ws[1..], sep, c);
      var i :| 0 <= i < |ws[1..]| && c in ws[1..][i];
      assert c in ws[i + 1];
    } else if |ws| == 1 || (|ws| > 1 && c in ws[0]) {
      assert c in ws[0];
    }
  }

  lemma {:induction false} JoinHas(ws: seq<string>, sep: char, i: nat, c: char)
    requires i < |ws| && c in ws[i]
    ensures c in JoinWith(ws, sep)
    decreases |ws|
  {
    if |ws| > 1 && i > 0 {
      JoinHas(ws[1..], sep, i - 1, c);
    }
  }
}
