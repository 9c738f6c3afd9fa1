/** What `kex_uncertain` promises about the parts of the configuration that could not be read. */
module SshdUncertainty {
  import opened Options
  import opened SshdConfig

  const KEX := "kexalgorithms"

  function Lookup(values: map<string, string>, key: string): Option<string> {
    if key in values then Some(values[key]) else None
  }

  // The value of the first directive for `key` that has one.
  function First(es: seq<Event>, key: string): Option<string> {
    if es == [] then None
    else if es[0].Directive? && es[0].key == key && es[0].value != "" then Some(es[0].value)
    else First(es[1..], key)
  }

  predicate SetsKex(e: Event) {
    e.Directive? && e.key == KEX && e.value != ""
  }

  // Something is skipped before the first KexAlgorithms value.
  predicate SkipsBeforeKex(es: seq<Event>) {
    es != [] && (es[0].Skipped? || (!SetsKex(es[0]) && SkipsBeforeKex(es[1..])))
  }

  // The keywords whose values are kept.
  const KEYWORDS: set<string> := {KEX, "hostkeyalgorithms"}

  /** First obtained value wins, whatever was included from where; other keywords get no value. */
  lemma {:induction false} FirstValueWins(es: seq<Event>, s: Findings, key: string)
    ensures Lookup(Replay(es, s).values, key) ==
            if key in s.values then Some(s.values[key]) else if key in KEYWORDS then First(es, key) else None
    decreases |es|
  {
    if es != [] {
      FirstValueWins(es[1..], Apply(es[0], s), key);
    }
  }

  // The host key an event gives, the file it opens, and what it skips.
  function HostKeyOf(e: Event): seq<string> {
    if e.Directive? && e.key == "hostkey" && e.value != "" then [e.value] else []
  }

  function FileOf(e: Event): seq<string> {
    if e.Opened? then [e.path] else []
  }

  function SkipOf(e: Event): seq<string> {
    if e.Skipped? then [e.path] else []
  }

  function Collect(es: seq<Event>, f: Event -> seq<string>): seq<string> {
    if es == [] then [] else f(es[0]) + Collect(es[1..], f)
  }

  /** The other findings: host keys, files and skips in the order they are met, and whether a Match line is. */
  lemma {:induction false} ListsAreInOrder(es: seq<Event>, s: Findings)
    ensures var r := Replay(es, s);
            && r.hostKeys == s.hostKeys + Collect(es, HostKeyOf) && r.files == s.files + Collect(es, FileOf)
            && r.unreadable == s.unreadable + Collect(es, SkipOf)
            && (r.stoppedAtMatch <==> s.stoppedAtMatch || MatchBlock in es)
    decreases |es|
  {
    hide Apply, HostKeyOf, FileOf, SkipOf;
    if es == [] {
      assert s.hostKeys + [] == s.hostKeys && s.files + [] == s.files && s.unreadable + [] == s.unreadable;
    } else {
      var e, s1 := es[0], Apply(es[0], s);
      ListsAreInOrder(es[1..], s1);
      OneInOrder(e, s);
      assert MatchBlock in es <==> e == MatchBlock || MatchBlock in es[1..];
      Regroup(s.hostKeys, HostKeyOf(e), Collect(es[1..], HostKeyOf));
      Regroup(s.files, FileOf(e), Collect(es[1..], FileOf));
      Regroup(s.unreadable, SkipOf(e), Collect(es[1..], SkipOf));
    }
  }

  lemma {:induction false} OneInOrder(e: Event, s: Findings)
    ensures var r := Apply(e, s);
            && r.hostKeys == s.hostKeys + HostKeyOf(e) && r.files == s.files + FileOf(e)
            && r.unreadable == s.unreadable + SkipOf(e) && (r.stoppedAtMatch <==> s.stoppedAtMatch || e == MatchBlock)
  {
    assert s.hostKeys + [] == s.hostKeys && s.files + [] == s.files && s.unreadable + [] == s.unreadable;
  }

  lemma {:induction false} Regroup(a: seq<string>, b: seq<string>, c: seq<string>)
    ensures (a + b) + c == a + (b + c)
  {
  }

  // Nothing comes behind a Match line.
  ghost predicate MatchIsLast(es: seq<Event>) {
    forall i | 0 <= i < |es| - 1 :: es[i] != MatchBlock
  }

  lemma {:induction false} ThenMatchIsLast(a: seq<Event>, b: seq<Event>)
    requires MatchIsLast(a) && MatchIsLast(b)
    ensures MatchIsLast(Then(a, b))
  {
    if !Ended(a) {
      forall i | 0 <= i < |a + b| - 1 ensures (a + b)[i] != MatchBlock {
        if i < |a| {
          assert a[i] in a;
        } else {
          assert (a + b)[i] == b[i - |a|];
        }
      }
    }
  }

  lemma {:induction false} ConsMatchIsLast(e: Event, b: seq<Event>)
    requires e != MatchBlock && MatchIsLast(b)
    ensures MatchIsLast([e] + b)
  {
    assert e !in [] && Then([e], b) == [e] + b;
    ThenMatchIsLast([e], b);
  }

  /** The first Match line, in whatever file it stands, ends the reading of all files. */
  lemma {:induction false} MatchEndsFile(h: Host, path: string, depth: nat)
    requires depth <= MAX_INCLUDE_DEPTH + 1
    ensures MatchIsLast(ExpandFile(h, path, depth))
    decreases MAX_INCLUDE_DEPTH + 1 - depth, 3
  {
    if depth <= MAX_INCLUDE_DEPTH && h.read(path).Text? {
      MatchEndsLines(h, h.read(path).lines, depth);
      ConsMatchIsLast(Opened(path), ExpandLines(h, h.read(path).lines, depth));
    }
  }

  lemma {:induction false} MatchEndsLines(h: Host, lines: seq<Line>, depth: nat)
    requires depth <= MAX_INCLUDE_DEPTH
    ensures MatchIsLast(ExpandLines(h, lines, depth))
    decreases MAX_INCLUDE_DEPTH + 1 - depth, 2, |lines|
  {
    hide ExpandPatterns, Then, MatchIsLast;
    assert MatchIsLast([]) && MatchIsLast([MatchBlock]) by { NothingLast(); }
    if lines != [] {
      MatchEndsLines(h, lines[1..], depth);
      match lines[0]
      case Blank =>
      case Setting(key, value, words) =>
        if key == "include" {
          MatchEndsPatterns(h, words, depth);
          ThenMatchIsLast(ExpandPatterns(h, words, depth), ExpandLines(h, lines[1..], depth));
        } else if key != "match" {
          ConsMatchIsLast(Directive(key, value), ExpandLines(h, lines[1..], depth));
        }
    }
  }

  lemma {:induction false} NothingLast()
    ensures MatchIsLast([]) && forall e :: MatchIsLast([e])
  {
  }

  lemma {:induction false} MatchEndsPatterns(h: Host, words: seq<string>, depth: nat)
    requires depth <= MAX_INCLUDE_DEPTH
    ensures MatchIsLast(ExpandPatterns(h, words, depth))
    decreases MAX_INCLUDE_DEPTH + 1 - depth, 1, |words|
  {
    hide ExpandPaths, Then, MatchIsLast;
    NothingLast();
    if words != [] {
      var pattern := Absolute(words[0]);
      MatchEndsPatterns(h, words[1..], depth);
      if h.glob(pattern).Paths? {
        MatchEndsPaths(h, h.glob(pattern).paths, depth);
        ConsMatchIsLast(Listed(pattern), ExpandPaths(h, h.glob(pattern).paths, depth));
      }
      ThenMatchIsLast(ExpandPattern(h, pattern, depth), ExpandPatterns(h, words[1..], depth));
    }
  }

  lemma {:induction false} MatchEndsPaths(h: Host, paths: seq<string>, depth: nat)
    requires depth <= MAX_INCLUDE_DEPTH
    ensures MatchIsLast(ExpandPaths(h, paths, depth))
    decreases MAX_INCLUDE_DEPTH + 1 - depth, 0, |paths|
  {
    hide ExpandFile, Then, MatchIsLast;
    NothingLast();
    if paths != [] {
      MatchEndsFile(h, paths[0], depth + 1);
      MatchEndsPaths(h, paths[1..], depth);
      ThenMatchIsLast(ExpandFile(h, paths[0], depth + 1), ExpandPaths(h, paths[1..], depth));
    }
  }

  lemma {:induction false} IncludeUnfolds(h: Host, value: string, words: seq<string>, rest: seq<Line>, depth: nat)
    requires depth <= MAX_INCLUDE_DEPTH
    ensures ExpandLines(h, [Setting("include", value, words)] + rest, depth) ==
            Then(ExpandPatterns(h, words, depth), ExpandLines(h, rest, depth))
  {
    hide ExpandPatterns, Then;
    assert ([Setting("include", value, words)] + rest)[1..] == rest;
  }

  /** An Include reads, for each of its patterns in turn, the files the system lists for it, a relative pattern being
      one below "/etc/ssh/". */
  lemma {:induction false} IncludeMeans(h: Host, value: string, pattern: string, more: seq<string>, rest: seq<Line>,
                                        depth: nat)
    requires depth <= MAX_INCLUDE_DEPTH
    ensures ExpandLines(h, [Setting("include", value, [])] + rest, depth) == ExpandLines(h, rest, depth)
    ensures var full := if "/" <= pattern then pattern else "/etc/ssh/" + pattern;
            var others := ExpandLines(h, [Setting("include", value, more)] + rest, depth);
            ExpandLines(h, [Setting("include", value, [pattern] + more)] + rest, depth) ==
            match h.glob(full)
            case Unlistable => [Skipped(full, Directory(depth))] + others
            case Paths(paths) => [Listed(full)] + Then(ExpandPaths(h, paths, depth), others)
  {
    hide ExpandLines, ExpandPaths, Then;
    var full := Absolute(pattern);
    assert full == if "/" <= pattern then pattern else "/etc/ssh/" + pattern;
    assert ([pattern] + more)[1..] == more;
    IncludeUnfolds(h, value, [], rest, depth);
    IncludeUnfolds(h, value, more, rest, depth);
    IncludeUnfolds(h, value, [pattern] + more, rest, depth);
    var a, b, c := ExpandPattern(h, full, depth), ExpandPatterns(h, more, depth), ExpandLines(h, rest, depth);
    ThenAssociates(a, b, c);
    ThenCons(MatchBlock, [], c);
    match h.glob(full)
    case Unlistable => ThenCons(Skipped(full, Directory(depth)), [], Then(b, c));
    case Paths(paths) => ThenCons(Listed(full), ExpandPaths(h, paths, depth), Then(b, c));
  }

  /** Files are read down to the sixteenth level of includes and not at the seventeenth. */
  lemma {:induction false} DepthLimit(h: Host, path: string)
    ensures ExpandFile(h, path, 16) != [] && ExpandFile(h, path, 17) == []
  {
  }

  lemma {:induction false} ThenCons(e: Event, a: seq<Event>, b: seq<Event>)
    ensures e != MatchBlock ==> Then([e] + a, b) == [e] + Then(a, b)
    ensures Then([], b) == b && [e] + [] == [e]
  {
    assert MatchBlock in [e] + a <==> e == MatchBlock || MatchBlock in a;
    assert [e] + (a + b) == ([e] + a) + b;
    assert [] + b == b;
  }

  lemma {:induction false} UncertainMeansSkipped(es: seq<Event>, s: Findings)
    ensures Replay(es, s).kexUncertain == (s.kexUncertain || (KEX !in s.values && SkipsBeforeKex(es)))
    decreases |es|
  {
    if es != [] {
      UncertainMeansSkipped(es[1..], Apply(es[0], s));
    }
  }

  function Parsed(h: Host, path: string): Findings {
    Replay(ExpandFile(h, path, 0), NOTHING)
  }

  function Kex(h: Host, path: string): Option<string> {
    Lookup(Parsed(h, path).values, KEX)
  }

  // ---- Two hosts that differ only in what the first did not tell ----

  // `b` answers as `a` did where the event is an answer.
  ghost predicate Answers(a: Host, b: Host, e: Event) {
    match e
    case Opened(p) => b.read(p) == a.read(p)
    case Absent(p) => b.read(p) == a.read(p)
    case Listed(q) => b.glob(q) == a.glob(q)
    case _ => true
  }

  ghost predicate AllAnswer(a: Host, b: Host, es: seq<Event>) {
    forall e | e in es :: Answers(a, b, e)
  }

  // `b` agrees with all that the walk of `a` got to see.  The files and directories it could not read, and
  // those it never asked for, may be anything in `b`.
  ghost predicate Completes(a: Host, b: Host, path: string) {
    AllAnswer(a, b, ExpandFile(a, path, 0))
  }

  // Files would have been read behind the skip: not so for a directory met at the depth limit.
  predicate Matters(e: Event) {
    e.Skipped? && (e.what.File? || e.what.depth < MAX_INCLUDE_DEPTH)
  }

  // Such a skip comes before the first KexAlgorithms value.
  predicate DependsOnUnread(es: seq<Event>) {
    es != [] && (Matters(es[0]) || (!SetsKex(es[0]) && DependsOnUnread(es[1..])))
  }

  // The events without listings and the skips that do not matter.
  function Core(es: seq<Event>): seq<Event> {
    if es == [] then []
    else (if es[0].Listed? || (es[0].Skipped? && !Matters(es[0])) then [] else [es[0]]) + Core(es[1..])
  }

  lemma {:induction false} CoreAppend(a: seq<Event>, b: seq<Event>)
    ensures Core(a + b) == Core(a) + Core(b)
    decreases |a|
  {
    if a == [] {
      assert a + b == b;
    } else {
      assert (a + b)[1..] == a[1..] + b;
      CoreAppend(a[1..], b);
    }
  }

  lemma {:induction false} CoreEnded(es: seq<Event>)
    ensures Ended(Core(es)) == Ended(es)
    decreases |es|
  {
    if es != [] {
      CoreEnded(es[1..]);
      assert es == [es[0]] + es[1..];
    }
  }

  lemma {:induction false} CoreThen(a: seq<Event>, b: seq<Event>)
    ensures Core(Then(a, b)) == Then(Core(a), Core(b))
  {
    CoreEnded(a);
    CoreAppend(a, b);
  }

  lemma {:induction false} CoreOne(e: Event)
    ensures Core([e]) == if e.Listed? || (e.Skipped? && !Matters(e)) then [] else [e]
  {
    assert [e][1..] == [];
  }

  lemma {:induction false} CoreKeeps(es: seq<Event>)
    ensures First(Core(es), KEX) == First(es, KEX) && SkipsBeforeKex(Core(es)) == DependsOnUnread(es)
    decreases |es|
  {
    if es != [] {
      CoreKeeps(es[1..]);
      var e, rest := es[0], Core(es[1..]);
      assert ([e] + rest)[0] == e && ([e] + rest)[1..] == rest;
      assert [] + rest == rest;
    }
  }

  function BeforeSkip(es: seq<Event>): (r: seq<Event>)
    ensures r <= es
  {
    if es == [] || es[0].Skipped? then []
    else
      var r := BeforeSkip(es[1..]);
      assert [es[0]] + r <= [es[0]] + es[1..] == es;
      [es[0]] + r
  }

  predicate Skips(es: seq<Event>) {
    BeforeSkip(es) != es
  }

  lemma {:induction false} BeforeSkipCons(e: Event, t: seq<Event>)
    ensures BeforeSkip([e] + t) == if e.Skipped? then [] else [e] + BeforeSkip(t)
  {
    assert ([e] + t)[1..] == t;
  }

  lemma {:induction false} ConsAppend<T>(e: T, a: seq<T>, b: seq<T>)
    ensures ([e] + a) + b == [e] + (a + b)
  {
  }

  lemma {:induction false} BeforeSkipAppend(a: seq<Event>, b: seq<Event>)
    ensures BeforeSkip(a + b) == if Skips(a) then BeforeSkip(a) else a + BeforeSkip(b)
    decreases |a|
  {
    hide BeforeSkip;
    if a == [] {
      assert a + b == b;
      assert BeforeSkip([]) <= [];
    } else {
      hide Skips;
      var e, t := a[0], a[1..];
      assert a == [e] + t;
      BeforeSkipAppend(t, b);
      BeforeSkipCons(e, t);
      BeforeSkipCons(e, t + b);
      ConsAppend(e, t, b);
      ConsAppend(e, t, BeforeSkip(b));
      SkipsTail(a);
    }
  }

  lemma {:induction false} SkipsTail(a: seq<Event>)
    requires a != []
    ensures Skips(a) == (a[0].Skipped? || Skips(a[1..]))
  {
    var t := a[1..];
    assert a == [a[0]] + t;
    if !a[0].Skipped? {
      assert BeforeSkip(a)[1..] == BeforeSkip(t);
    }
  }

  // The events agree up to the first skip of the first host, and everywhere if there is none.
  predicate SameUpToSkip(ea: seq<Event>, eb: seq<Event>) {
    if Skips(ea) then BeforeSkip(ea) <= eb else ea == eb
  }

  lemma {:induction false} SameThen(a1: seq<Event>, b1: seq<Event>, a2: seq<Event>, b2: seq<Event>)
    requires SameUpToSkip(a1, b1) && (!Ended(a1) ==> SameUpToSkip(a2, b2))
    ensures SameUpToSkip(Then(a1, a2), Then(b1, b2))
  {
    hide BeforeSkip;
    BeforeSkipAppend(a1, a2);
    if !Ended(a1) {
      if Skips(a1) {
        assert BeforeSkip(a1) <= b1 <= b1 + b2;
        assert |BeforeSkip(a1 + a2)| < |a1 + a2|;
      } else if Skips(a2) {
        assert a1 + BeforeSkip(a2) <= a1 + b2;
        assert (a1 + BeforeSkip(a2))[|a1|..] == BeforeSkip(a2) && (a1 + a2)[|a1|..] == a2;
      } else {
        assert a1 + a2 == b1 + b2;
      }
    } else if Skips(a1) {
      assert BeforeSkip(a1) <= b1 <= b1 + b2;
    }
  }

  // So do their cores.
  predicate Agree(ea: seq<Event>, eb: seq<Event>) {
    SameUpToSkip(Core(ea), Core(eb))
  }

  lemma {:induction false} AgreeThen(a1: seq<Event>, b1: seq<Event>, a2: seq<Event>, b2: seq<Event>)
    requires Agree(a1, b1) && (!Ended(a1) ==> Agree(a2, b2))
    ensures Agree(Then(a1, a2), Then(b1, b2))
  {
    hide SameUpToSkip, Core;
    CoreThen(a1, a2);
    CoreThen(b1, b2);
    CoreEnded(a1);
    SameThen(Core(a1), Core(b1), Core(a2), Core(b2));
  }

  lemma {:induction false} AgreeSelf(e: Event)
    requires !Matters(e)
    ensures Agree([e], [e]) && Agree([], [])
  {
    CoreOne(e);
    assert [e][1..] == [];
  }

  lemma {:induction false} AgreeCons(e: Event, a: seq<Event>, b: seq<Event>)
    requires Agree(a, b) && !Matters(e) && e != MatchBlock
    ensures Agree([e] + a, [e] + b)
  {
    AgreeSelf(e);
    hide Agree;
    AgreeThen([e], [e], a, b);
  }

  lemma {:induction false} SkipAgrees(e: Event, eb: seq<Event>)
    requires Matters(e)
    ensures Agree([e], eb)
  {
    CoreOne(e);
  }

  lemma {:induction false} AnswersThen(a: Host, b: Host, e1: seq<Event>, e2: seq<Event>)
    requires AllAnswer(a, b, Then(e1, e2))
    ensures AllAnswer(a, b, e1) && (!Ended(e1) ==> AllAnswer(a, b, e2))
  {
    forall e | e in e1 ensures Answers(a, b, e) { assert e in Then(e1, e2); }
    if !Ended(e1) {
      forall e | e in e2 ensures Answers(a, b, e) { assert e in Then(e1, e2); }
    }
  }

  lemma {:induction false} AnswersCons(a: Host, b: Host, e: Event, es: seq<Event>)
    requires AllAnswer(a, b, [e] + es)
    ensures Answers(a, b, e) && AllAnswer(a, b, es)
  {
    assert ([e] + es)[0] == e;
    forall x | x in es ensures Answers(a, b, x) { assert x in [e] + es; }
  }

  lemma {:induction false} FileAgrees(a: Host, b: Host, path: string, depth: nat)
    requires depth <= MAX_INCLUDE_DEPTH + 1 && AllAnswer(a, b, ExpandFile(a, path, depth))
    ensures Agree(ExpandFile(a, path, depth), ExpandFile(b, path, depth))
    decreases MAX_INCLUDE_DEPTH + 1 - depth, 3
  {
    hide Agree, ExpandLines, AllAnswer;
    AgreeSelf(Absent(path));
    if depth <= MAX_INCLUDE_DEPTH {
      match a.read(path)
      case Denied =>
        SkipAgrees(Skipped(path, File), ExpandFile(b, path, depth));
      case Missing =>
        assert [Absent(path)] + [] == [Absent(path)];
        AnswersCons(a, b, Absent(path), []);
      case Text(lines) =>
        AnswersCons(a, b, Opened(path), ExpandLines(a, lines, depth));
        LinesAgree(a, b, lines, depth);
        AgreeCons(Opened(path), ExpandLines(a, lines, depth), ExpandLines(b, lines, depth));
    }
  }

  lemma {:induction false} LinesAgree(a: Host, b: Host, lines: seq<Line>, depth: nat)
    requires depth <= MAX_INCLUDE_DEPTH && AllAnswer(a, b, ExpandLines(a, lines, depth))
    ensures Agree(ExpandLines(a, lines, depth), ExpandLines(b, lines, depth))
    decreases MAX_INCLUDE_DEPTH + 1 - depth, 2, |lines|
  {
    hide Agree, ExpandPatterns, Then, Ended, AllAnswer;
    AgreeSelf(MatchBlock);
    if lines != [] {
      var rest := lines[1..];
      match lines[0]
      case Blank => LinesAgree(a, b, rest, depth);
      case Setting(key, value, words) =>
        if key == "include" {
          AnswersThen(a, b, ExpandPatterns(a, words, depth), ExpandLines(a, rest, depth));
          PatternsAgree(a, b, words, depth);
          if !Ended(ExpandPatterns(a, words, depth)) {
            LinesAgree(a, b, rest, depth);
          }
          AgreeThen(ExpandPatterns(a, words, depth), ExpandPatterns(b, words, depth),
                    ExpandLines(a, rest, depth), ExpandLines(b, rest, depth));
        } else if key != "match" {
          AnswersCons(a, b, Directive(key, value), ExpandLines(a, rest, depth));
          LinesAgree(a, b, rest, depth);
          AgreeCons(Directive(key, value), ExpandLines(a, rest, depth), ExpandLines(b, rest, depth));
        }
    }
  }

  lemma {:induction false} PatternsAgree(a: Host, b: Host, words: seq<string>, depth: nat)
    requires depth <= MAX_INCLUDE_DEPTH && AllAnswer(a, b, ExpandPatterns(a, words, depth))
    ensures Agree(ExpandPatterns(a, words, depth), ExpandPatterns(b, words, depth))
    decreases MAX_INCLUDE_DEPTH + 1 - depth, 1, |words|
  {
    hide Agree, ExpandPattern, Then, Ended, AllAnswer;
    AgreeSelf(MatchBlock);
    if words != [] {
      var pattern, rest := Absolute(words[0]), words[1..];
      AnswersThen(a, b, ExpandPattern(a, pattern, depth), ExpandPatterns(a, rest, depth));
      PatternAgrees(a, b, pattern, depth);
      if !Ended(ExpandPattern(a, pattern, depth)) {
        PatternsAgree(a, b, rest, depth);
      }
      AgreeThen(ExpandPattern(a, pattern, depth), ExpandPattern(b, pattern, depth),
                ExpandPatterns(a, rest, depth), ExpandPatterns(b, rest, depth));
    }
  }

  lemma {:induction false} PatternAgrees(a: Host, b: Host, pattern: string, depth: nat)
    requires depth <= MAX_INCLUDE_DEPTH && AllAnswer(a, b, ExpandPattern(a, pattern, depth))
    ensures Agree(ExpandPattern(a, pattern, depth), ExpandPattern(b, pattern, depth))
    decreases MAX_INCLUDE_DEPTH + 1 - depth, 1, 0
  {
    hide Agree, ExpandPaths, AllAnswer;
    match a.glob(pattern)
    case Unlistable =>
      var e := Skipped(pattern, Directory(depth));
      if depth < MAX_INCLUDE_DEPTH {
        SkipAgrees(e, ExpandPattern(b, pattern, depth));
      } else {
        if b.glob(pattern).Paths? {
          TooDeep(b, b.glob(pattern).paths);
          assert [Listed(pattern)] + [] == [Listed(pattern)];
        }
        NeitherMatters(pattern);
      }
    case Paths(paths) =>
      AnswersCons(a, b, Listed(pattern), ExpandPaths(a, paths, depth));
      PathsAgree(a, b, paths, depth);
      AgreeCons(Listed(pattern), ExpandPaths(a, paths, depth), ExpandPaths(b, paths, depth));
  }

  lemma {:induction false} NeitherMatters(pattern: string)
    ensures var e := Skipped(pattern, Directory(MAX_INCLUDE_DEPTH));
            Agree([e], [e]) && Agree([e], [Listed(pattern)])
  {
    CoreOne(Skipped(pattern, Directory(MAX_INCLUDE_DEPTH)));
    CoreOne(Listed(pattern));
  }

  lemma {:induction false} TooDeep(b: Host, paths: seq<string>)
    ensures ExpandPaths(b, paths, MAX_INCLUDE_DEPTH) == []
    decreases |paths|
  {
    if paths != [] {
      TooDeep(b, paths[1..]);
    }
  }

  lemma {:induction false} PathsAgree(a: Host, b: Host, paths: seq<string>, depth: nat)
    requires depth <= MAX_INCLUDE_DEPTH && AllAnswer(a, b, ExpandPaths(a, paths, depth))
    ensures Agree(ExpandPaths(a, paths, depth), ExpandPaths(b, paths, depth))
    decreases MAX_INCLUDE_DEPTH + 1 - depth, 0, |paths|
  {
    hide Agree, ExpandFile, Then, Ended, AllAnswer;
    AgreeSelf(MatchBlock);
    if paths != [] {
      var path, rest := paths[0], paths[1..];
      AnswersThen(a, b, ExpandFile(a, path, depth + 1), ExpandPaths(a, rest, depth));
      FileAgrees(a, b, path, depth + 1);
      if !Ended(ExpandFile(a, path, depth + 1)) {
        PathsAgree(a, b, rest, depth);
      }
      AgreeThen(ExpandFile(a, path, depth + 1), ExpandFile(b, path, depth + 1),
                ExpandPaths(a, rest, depth), ExpandPaths(b, rest, depth));
    }
  }

  lemma {:induction false} KexBeforeSkip(ea: seq<Event>, eb: seq<Event>)
    requires SameUpToSkip(ea, eb) && !SkipsBeforeKex(ea)
    ensures First(eb, KEX) == First(ea, KEX)
    decreases |ea|
  {
    if ea != [] && Skips(ea) {
      SkipsTail(ea);
      assert eb[0] == ea[0];
      assert BeforeSkip(ea) == [ea[0]] + BeforeSkip(ea[1..]);
      assert BeforeSkip(ea[1..]) == BeforeSkip(ea)[1..] <= eb[1..];
      if !SetsKex(ea[0]) {
        KexBeforeSkip(ea[1..], eb[1..]);
      }
    }
  }

  lemma {:induction false} IndependentUnlessSkipped(a: Host, b: Host, path: string)
    requires Completes(a, b, path) && !DependsOnUnread(ExpandFile(a, path, 0))
    ensures Kex(b, path) == Kex(a, path)
  {
    var ea, eb := ExpandFile(a, path, 0), ExpandFile(b, path, 0);
    FileAgrees(a, b, path, 0);
    hide ExpandFile;
    FirstValueWins(ea, NOTHING, KEX);
    FirstValueWins(eb, NOTHING, KEX);
    CoreKeeps(ea);
    CoreKeeps(eb);
    KexBeforeSkip(Core(ea), Core(eb));
  }

  lemma {:induction false} DependentMeansSkipped(es: seq<Event>)
    requires DependsOnUnread(es)
    ensures SkipsBeforeKex(es)
    decreases |es|
  {
    if !es[0].Skipped? {
      DependentMeansSkipped(es[1..]);
    }
  }

  /** Soundness of the flag: when it is not set, no content of the unreadable files and directories, no
      absence of them, and nothing the scan never asked for changes the KexAlgorithms value found. */
  lemma {:induction false} CertainIsIndependent(a: Host, b: Host, path: string)
    requires Completes(a, b, path) && !Parsed(a, path).kexUncertain
    ensures Kex(b, path) == Kex(a, path)
  {
    hide ExpandFile, Completes, Kex;
    UncertainMeansSkipped(ExpandFile(a, path, 0), NOTHING);
    if DependsOnUnread(ExpandFile(a, path, 0)) {
      DependentMeansSkipped(ExpandFile(a, path, 0));
    }
    IndependentUnlessSkipped(a, b, path);
  }

  // ---- What would change the value ----

  function KexLines(v: string): seq<Line> {
    [Setting(KEX, v, [])]
  }

  // "KexAlgorithms v" turns out to be in every unreadable file, and in a file `q` that the unlistable patterns for
  // which `lists` holds name; the others name nothing.
  datatype Filling = Filling(v: string, q: string, lists: string -> bool)

  function Fill(a: Host, w: Filling): Host {
    Host(p => if p == w.q || a.read(p).Denied? then Text(KexLines(w.v)) else a.read(p),
         p => if a.glob(p).Unlistable? then Paths(if w.lists(p) then [w.q] else []) else a.glob(p))
  }

  function FillEvent(e: Event, w: Filling): seq<Event> {
    if !e.Skipped? then [e]
    else if e.what.File? then [Opened(e.path), Directive(KEX, w.v)]
    else [Listed(e.path)] + if Matters(e) && w.lists(e.path) then [Opened(w.q), Directive(KEX, w.v)] else []
  }

  function FillEvents(es: seq<Event>, w: Filling): seq<Event> {
    if es == [] then [] else FillEvent(es[0], w) + FillEvents(es[1..], w)
  }

  lemma {:induction false} FillAppend(a: seq<Event>, b: seq<Event>, w: Filling)
    ensures FillEvents(a + b, w) == FillEvents(a, w) + FillEvents(b, w)
    decreases |a|
  {
    hide FillEvent;
    if a == [] {
      assert a + b == b;
    } else {
      assert (a + b)[1..] == a[1..] + b;
      FillAppend(a[1..], b, w);
    }
  }

  lemma {:induction false} FillEnded(es: seq<Event>, w: Filling)
    ensures Ended(FillEvents(es, w)) == Ended(es)
    decreases |es|
  {
    if es != [] {
      FillEnded(es[1..], w);
      assert es == [es[0]] + es[1..];
    }
  }

  lemma {:induction false} FillThen(a: seq<Event>, b: seq<Event>, w: Filling)
    ensures FillEvents(Then(a, b), w) == Then(FillEvents(a, w), FillEvents(b, w))
  {
    FillEnded(a, w);
    FillAppend(a, b, w);
  }

  lemma {:induction false} FillOne(e: Event, w: Filling)
    ensures FillEvents([e], w) == FillEvent(e, w) && FillEvents([], w) == []
  {
    assert [e][1..] == [];
    assert FillEvent(e, w) + [] == FillEvent(e, w);
  }

  lemma {:induction false} FillCons(e: Event, b: seq<Event>, w: Filling)
    requires !e.Skipped?
    ensures FillEvents([e] + b, w) == [e] + FillEvents(b, w)
  {
    assert ([e] + b)[1..] == b;
  }

  // The events tell the truth about the host, and `q` is not among what was read.
  ghost predicate Tells(a: Host, q: string, e: Event) {
    match e
    case Opened(p) => a.read(p).Text? && p != q
    case Absent(p) => a.read(p).Missing? && p != q
    case Listed(p) => a.glob(p).Paths?
    case _ => true
  }

  ghost predicate NotRead(q: string, es: seq<Event>) {
    Opened(q) !in es && Absent(q) !in es
  }

  // What the walk of the filled host meets.
  ghost predicate Filled(a: Host, w: Filling, ea: seq<Event>, eb: seq<Event>) {
    eb == FillEvents(ea, w) && forall e | e in ea :: Tells(a, w.q, e)
  }

  lemma {:induction false} FilledThen(a: Host, w: Filling, a1: seq<Event>, b1: seq<Event>, a2: seq<Event>,
                                      b2: seq<Event>)
    requires Filled(a, w, a1, b1) && (!Ended(a1) ==> Filled(a, w, a2, b2))
    ensures Filled(a, w, Then(a1, a2), Then(b1, b2))
  {
    hide FillEvents, Tells;
    FillEnded(a1, w);
    FillThen(a1, a2, w);
  }

  lemma {:induction false} FilledCons(a: Host, w: Filling, e: Event, ea: seq<Event>, eb: seq<Event>)
    requires Filled(a, w, ea, eb) && !e.Skipped? && Tells(a, w.q, e)
    ensures Filled(a, w, [e] + ea, [e] + eb)
  {
    hide FillEvents, Tells;
    FillCons(e, ea, w);
  }

  lemma {:induction false} FilledOne(a: Host, w: Filling, e: Event)
    requires Tells(a, w.q, e)
    ensures Filled(a, w, [e], FillEvent(e, w)) && Filled(a, w, [], [])
  {
    FillOne(e, w);
  }

  lemma {:induction false} NotReadThen(q: string, a: seq<Event>, b: seq<Event>)
    requires NotRead(q, Then(a, b))
    ensures NotRead(q, a) && (!Ended(a) ==> NotRead(q, b))
  {
  }

  lemma {:induction false} NotReadCons(q: string, e: Event, es: seq<Event>)
    requires NotRead(q, [e] + es)
    ensures e != Opened(q) && e != Absent(q) && NotRead(q, es)
  {
    assert ([e] + es)[0] == e;
    forall x | x in es ensures x in [e] + es {}
  }

  lemma {:induction false} KexFile(b: Host, p: string, v: string, depth: nat)
    requires depth <= MAX_INCLUDE_DEPTH && b.read(p) == Text(KexLines(v))
    ensures ExpandFile(b, p, depth) == [Opened(p), Directive(KEX, v)]
  {
    var lines := KexLines(v);
    assert lines[1..] == [];
    assert ExpandLines(b, lines, depth) == [Directive(KEX, v)];
  }

  lemma {:induction false} FileFilled(a: Host, path: string, depth: nat, w: Filling)
    requires depth <= MAX_INCLUDE_DEPTH + 1 && NotRead(w.q, ExpandFile(a, path, depth))
    ensures Filled(a, w, ExpandFile(a, path, depth), ExpandFile(Fill(a, w), path, depth))
    decreases MAX_INCLUDE_DEPTH + 1 - depth, 3
  {
    hide Filled, ExpandLines;
    var b := Fill(a, w);
    FilledOne(a, w, MatchBlock);
    if depth <= MAX_INCLUDE_DEPTH {
      match a.read(path)
      case Missing =>
        assert path != w.q;
        FilledOne(a, w, Absent(path));
      case Denied =>
        KexFile(b, path, w.v, depth);
        FilledOne(a, w, Skipped(path, File));
      case Text(lines) =>
        NotReadCons(w.q, Opened(path), ExpandLines(a, lines, depth));
        LinesFilled(a, lines, depth, w);
        FilledCons(a, w, Opened(path), ExpandLines(a, lines, depth), ExpandLines(b, lines, depth));
    }
  }

  lemma {:induction false} LinesFilled(a: Host, lines: seq<Line>, depth: nat, w: Filling)
    requires depth <= MAX_INCLUDE_DEPTH && NotRead(w.q, ExpandLines(a, lines, depth))
    ensures Filled(a, w, ExpandLines(a, lines, depth), ExpandLines(Fill(a, w), lines, depth))
    decreases MAX_INCLUDE_DEPTH + 1 - depth, 2, |lines|
  {
    hide Filled, Fill, ExpandPatterns, Then, Ended, NotRead;
    var b := Fill(a, w);
    FilledOne(a, w, MatchBlock);
    if lines != [] {
      var rest := lines[1..];
      match lines[0]
      case Blank => LinesFilled(a, rest, depth, w);
      case Setting(key, value, words) =>
        if key == "include" {
          NotReadThen(w.q, ExpandPatterns(a, words, depth), ExpandLines(a, rest, depth));
          PatternsFilled(a, words, depth, w);
          if !Ended(ExpandPatterns(a, words, depth)) {
            LinesFilled(a, rest, depth, w);
          }
          FilledThen(a, w, ExpandPatterns(a, words, depth), ExpandPatterns(b, words, depth),
                     ExpandLines(a, rest, depth), ExpandLines(b, rest, depth));
        } else if key != "match" {
          NotReadCons(w.q, Directive(key, value), ExpandLines(a, rest, depth));
          LinesFilled(a, rest, depth, w);
          FilledCons(a, w, Directive(key, value), ExpandLines(a, rest, depth), ExpandLines(b, rest, depth));
        }
    }
  }

  lemma {:induction false} PatternsFilled(a: Host, words: seq<string>, depth: nat, w: Filling)
    requires depth <= MAX_INCLUDE_DEPTH && NotRead(w.q, ExpandPatterns(a, words, depth))
    ensures Filled(a, w, ExpandPatterns(a, words, depth), ExpandPatterns(Fill(a, w), words, depth))
    decreases MAX_INCLUDE_DEPTH + 1 - depth, 1, |words|
  {
    hide Filled, Fill, ExpandPattern, Then, Ended, NotRead;
    var b := Fill(a, w);
    FilledOne(a, w, MatchBlock);
    if words != [] {
      var pattern, rest := Absolute(words[0]), words[1..];
      NotReadThen(w.q, ExpandPattern(a, pattern, depth), ExpandPatterns(a, rest, depth));
      PatternFilled(a, pattern, depth, w);
      if !Ended(ExpandPattern(a, pattern, depth)) {
        PatternsFilled(a, rest, depth, w);
      }
      FilledThen(a, w, ExpandPattern(a, pattern, depth), ExpandPattern(b, pattern, depth),
                 ExpandPatterns(a, rest, depth), ExpandPatterns(b, rest, depth));
    }
  }

  lemma {:induction false} PatternFilled(a: Host, pattern: string, depth: nat, w: Filling)
    requires depth <= MAX_INCLUDE_DEPTH && NotRead(w.q, ExpandPattern(a, pattern, depth))
    ensures Filled(a, w, ExpandPattern(a, pattern, depth), ExpandPattern(Fill(a, w), pattern, depth))
    decreases MAX_INCLUDE_DEPTH + 1 - depth, 1, 0
  {
    hide Filled, ExpandPaths, NotRead;
    var b := Fill(a, w);
    match a.glob(pattern)
    case Unlistable =>
      if w.lists(pattern) {
        NewFile(b, w.q, w.v, depth);
      } else {
        NoFiles(b, depth);
      }
      FilledOne(a, w, Skipped(pattern, Directory(depth)));
    case Paths(paths) =>
      NotReadCons(w.q, Listed(pattern), ExpandPaths(a, paths, depth));
      PathsFilled(a, paths, depth, w);
      FilledCons(a, w, Listed(pattern), ExpandPaths(a, paths, depth), ExpandPaths(b, paths, depth));
  }

  lemma {:induction false} NoFiles(b: Host, depth: nat)
    requires depth <= MAX_INCLUDE_DEPTH
    ensures ExpandPaths(b, [], depth) == []
  {
  }

  // What a directory that turns out to hold `q` adds.
  lemma {:induction false} NewFile(b: Host, q: string, v: string, depth: nat)
    requires depth <= MAX_INCLUDE_DEPTH && b.read(q) == Text(KexLines(v))
    ensures ExpandPaths(b, [q], depth) == if depth < MAX_INCLUDE_DEPTH then [Opened(q), Directive(KEX, v)] else []
  {
    assert [q][1..] == [];
    if depth < MAX_INCLUDE_DEPTH {
      KexFile(b, q, v, depth + 1);
      var file := [Opened(q), Directive(KEX, v)];
      assert file + [] == file;
    }
  }

  lemma {:induction false} PathsFilled(a: Host, paths: seq<string>, depth: nat, w: Filling)
    requires depth <= MAX_INCLUDE_DEPTH && NotRead(w.q, ExpandPaths(a, paths, depth))
    ensures Filled(a, w, ExpandPaths(a, paths, depth), ExpandPaths(Fill(a, w), paths, depth))
    decreases MAX_INCLUDE_DEPTH + 1 - depth, 0, |paths|
  {
    hide Filled, Fill, ExpandFile, Then, Ended, NotRead;
    var b := Fill(a, w);
    FilledOne(a, w, MatchBlock);
    if paths != [] {
      var path, rest := paths[0], paths[1..];
      NotReadThen(w.q, ExpandFile(a, path, depth + 1), ExpandPaths(a, rest, depth));
      FileFilled(a, path, depth + 1, w);
      if !Ended(ExpandFile(a, path, depth + 1)) {
        PathsFilled(a, rest, depth, w);
      }
      FilledThen(a, w, ExpandFile(a, path, depth + 1), ExpandFile(b, path, depth + 1),
                 ExpandPaths(a, rest, depth), ExpandPaths(b, rest, depth));
    }
  }

  // A skip that the filling fills, before the first KexAlgorithms value.
  predicate FillsBeforeKex(es: seq<Event>, w: Filling) {
    es != [] && (IsFilled(es[0], w) || (!SetsKex(es[0]) && FillsBeforeKex(es[1..], w)))
  }

  predicate IsFilled(e: Event, w: Filling) {
    Matters(e) && (e.what.File? || w.lists(e.path))
  }

  lemma {:induction false} FilledKex(es: seq<Event>, w: Filling)
    requires FillsBeforeKex(es, w) && w.v != ""
    ensures First(FillEvents(es, w), KEX) == Some(w.v)
    decreases |es|
  {
    var rest := FillEvents(es[1..], w);
    if IsFilled(es[0], w) {
      FirstOfFilled(es[0], rest, w);
    } else {
      FilledKex(es[1..], w);
      assert FillEvent(es[0], w) == if es[0].Skipped? then [Listed(es[0].path)] else [es[0]];
      assert FillEvents(es, w)[1..] == rest;
    }
  }

  lemma {:induction false} FirstOfFilled(e: Event, rest: seq<Event>, w: Filling)
    requires IsFilled(e, w) && w.v != ""
    ensures First(FillEvent(e, w) + rest, KEX) == Some(w.v)
  {
    var p := if e.what.File? then e.path else w.q;
    var tail := [Directive(KEX, w.v)] + rest;
    assert ([Opened(p)] + tail)[1..] == tail;
    assert First([Opened(p)] + tail, KEX) == Some(w.v);
    if e.what.File? {
      assert FillEvent(e, w) + rest == [Opened(p)] + tail;
    } else {
      var all := [Listed(e.path)] + ([Opened(p)] + tail);
      assert FillEvent(e, w) + rest == all && all[1..] == [Opened(p)] + tail;
    }
  }

  // A path longer than any that was met.
  function NewPath(es: seq<Event>): string {
    if es == [] then "/"
    else NewPath(es[1..]) + match es[0] case Opened(p) => p case Absent(p) => p case _ => ""
  }

  lemma {:induction false} NewIsNew(es: seq<Event>)
    ensures |NewPath(es)| > 0 && NotRead(NewPath(es), es)
  {
    var q := NewPath(es);
    NewNonempty(es);
    if Opened(q) in es {
      LongerThan(es, Opened(q));
    }
    if Absent(q) in es {
      LongerThan(es, Absent(q));
    }
  }

  lemma {:induction false} LongerThan(es: seq<Event>, e: Event)
    requires e in es && (e.Opened? || e.Absent?)
    ensures |e.path| < |NewPath(es)|
    decreases |es|
  {
    if e != es[0] {
      assert e in es[1..];
      LongerThan(es[1..], e);
    } else {
      NewNonempty(es[1..]);
    }
  }

  lemma {:induction false} NewNonempty(es: seq<Event>)
    ensures NewPath(es) != ""
    decreases |es|
  {
    if es != [] {
      NewNonempty(es[1..]);
    }
  }

  /** On every host: something the scan could not read or never asked for can change the value if and only if,
      before the first KexAlgorithms value, an unreadable file is met or a directory that cannot be listed at a
      depth where its files would still be read.  The flag is set by a skip of any kind there. */
  lemma {:induction false} UncertainIffDependent(a: Host, path: string)
    ensures var es := ExpandFile(a, path, 0);
            && ((exists b :: Completes(a, b, path) && Kex(b, path) != Kex(a, path)) <==> DependsOnUnread(es))
            && (Parsed(a, path).kexUncertain <==> SkipsBeforeKex(es))
  {
    var es := ExpandFile(a, path, 0);
    UncertainMeansSkipped(es, NOTHING);
    if DependsOnUnread(es) {
      var v := if Kex(a, path) == Some("x") then "y" else "x";
      var b := SomethingElse(a, path, v);
    } else {
      hide *;
      forall b | Completes(a, b, path) ensures Kex(b, path) == Kex(a, path) {
        IndependentUnlessSkipped(a, b, path);
      }
    }
  }

  lemma {:induction false} SomethingElse(a: Host, path: string, v: string) returns (b: Host)
    requires DependsOnUnread(ExpandFile(a, path, 0)) && v != ""
    ensures Completes(a, b, path) && Kex(b, path) == Some(v)
  {
    var es := ExpandFile(a, path, 0);
    hide ExpandFile;
    NewIsNew(es);
    var w := Filling(v, NewPath(es), _ => true);
    EverySkipIsFilled(es, w);
    b := Fill(a, w);
    FillingChanges(a, path, w);
  }

  lemma {:induction false} EverySkipIsFilled(es: seq<Event>, w: Filling)
    requires DependsOnUnread(es) && forall p :: w.lists(p)
    ensures FillsBeforeKex(es, w)
    decreases |es|
  {
    if !Matters(es[0]) {
      EverySkipIsFilled(es[1..], w);
    }
  }

  lemma {:induction false} FillingChanges(a: Host, path: string, w: Filling)
    requires NotRead(w.q, ExpandFile(a, path, 0)) && FillsBeforeKex(ExpandFile(a, path, 0), w) && w.v != ""
    ensures Completes(a, Fill(a, w), path) && Kex(Fill(a, w), path) == Some(w.v)
  {
    var es := ExpandFile(a, path, 0);
    hide ExpandFile;
    FileFilled(a, path, 0, w);
    FilledKex(es, w);
    FirstValueWins(FillEvents(es, w), NOTHING, KEX);
    forall e | e in es ensures Answers(a, Fill(a, w), e) {
      assert Tells(a, w.q, e);
    }
  }

  // ---- Patterns that name only some files ----

  // What `b` lists for a pattern that `a` could not list are paths the pattern matches.
  ghost predicate ListsMatches(matches: (string, string) -> bool, a: Host, b: Host) {
    forall p, q | a.glob(p).Unlistable? && b.glob(p).Paths? && q in b.glob(p).paths :: matches(p, q)
  }

  // The pattern names some file that was not read.
  ghost predicate NamesUnread(matches: (string, string) -> bool, es: seq<Event>, pattern: string) {
    exists q :: matches(pattern, q) && NotRead(q, es)
  }

  // Such a file, or an unreadable one, would be read behind the skip.
  ghost predicate MayMatter(matches: (string, string) -> bool, all: seq<Event>, e: Event) {
    Matters(e) && (e.what.File? || NamesUnread(matches, all, e.path))
  }

  ghost predicate MayMatterBeforeKex(matches: (string, string) -> bool, all: seq<Event>, es: seq<Event>) {
    es != []
    && (MayMatter(matches, all, es[0]) || (!SetsKex(es[0]) && MayMatterBeforeKex(matches, all, es[1..])))
  }

  lemma {:induction false} FirstMatter(matches: (string, string) -> bool, all: seq<Event>, es: seq<Event>, v: string)
    returns (w: Filling)
    requires MayMatterBeforeKex(matches, all, es)
    ensures w.v == v && NotRead(w.q, all) && FillsBeforeKex(es, w) && forall p | w.lists(p) :: matches(p, w.q)
    decreases |es|
  {
    hide NotRead;
    if MayMatter(matches, all, es[0]) {
      if es[0].what.File? {
        NewIsNew(all);
        w := Filling(v, NewPath(all), _ => false);
      } else {
        var q :| matches(es[0].path, q) && NotRead(q, all);
        w := Filling(v, q, p => matches(p, q));
      }
    } else {
      w := FirstMatter(matches, all, es[1..], v);
    }
  }

  lemma {:induction false} FillListsMatches(matches: (string, string) -> bool, a: Host, w: Filling)
    requires forall p | w.lists(p) :: matches(p, w.q)
    ensures ListsMatches(matches, a, Fill(a, w))
  {
  }

  lemma {:induction false} RoomyMatters(matches: (string, string) -> bool, all: seq<Event>, es: seq<Event>)
    requires forall e | e in es && Matters(e) && e.what.Directory? :: NamesUnread(matches, all, e.path)
    ensures DependsOnUnread(es) ==> MayMatterBeforeKex(matches, all, es)
    decreases |es|
  {
    hide NamesUnread;
    if DependsOnUnread(es) && !Matters(es[0]) {
      RoomyMatters(matches, all, es[1..]);
    } else if es != [] {
      assert es[0] in es;
    }
  }

  // Something unseen, of the files each pattern can name, changes the value.
  ghost predicate CanChange(matches: (string, string) -> bool, a: Host, path: string) {
    exists b :: Completes(a, b, path) && ListsMatches(matches, a, b) && Kex(b, path) != Kex(a, path)
  }

  /** With patterns that name only what they match: the value can change if an unreadable file, or an unlistable
      directory above the depth limit whose pattern names some file that was not read, is met before the first
      KexAlgorithms value; and it cannot if no such skip is met at all.  Where every such pattern names some file
      that was not read, as all with a "*" do, that is an if and only if. */
  lemma {:induction false} UncertainOfMatches(matches: (string, string) -> bool, a: Host, path: string)
    ensures var es := ExpandFile(a, path, 0);
            && (MayMatterBeforeKex(matches, es, es) ==> CanChange(matches, a, path))
            && (CanChange(matches, a, path) ==> DependsOnUnread(es))
            && ((forall e | e in es && Matters(e) && e.what.Directory? :: NamesUnread(matches, es, e.path)) ==>
                  (CanChange(matches, a, path) <==> DependsOnUnread(es)))
  {
    var es := ExpandFile(a, path, 0);
    hide ExpandFile, Completes, ListsMatches, Kex, NamesUnread, MayMatterBeforeKex;
    if CanChange(matches, a, path) && !DependsOnUnread(es) {
      var b :| Completes(a, b, path) && ListsMatches(matches, a, b) && Kex(b, path) != Kex(a, path);
      IndependentUnlessSkipped(a, b, path);
    }
    if MayMatterBeforeKex(matches, es, es) {
      var v := if Kex(a, path) == Some("x") then "y" else "x";
      var w := FirstMatter(matches, es, es, v);
      FillingChanges(a, path, w);
      FillListsMatches(matches, a, w);
    }
    if forall e | e in es && Matters(e) && e.what.Directory? :: NamesUnread(matches, es, e.path) {
      RoomyMatters(matches, es, es);
    }
  }

  // A chain of includes, one per level, that ends in a directory that cannot be listed at the last level.
  function Chain(): Host {
    Host(p => Text([Setting("include", "", [p + "f"])]),
         q => if |q| > MAX_INCLUDE_DEPTH + 1 then Unlistable else Paths([q]))
  }

  lemma {:induction false} ChainFrom(p: string, depth: nat)
    requires depth <= MAX_INCLUDE_DEPTH && |p| == depth + 1 && p[0] == '/'
    ensures var es := ExpandFile(Chain(), p, depth);
            SkipsBeforeKex(es) && !DependsOnUnread(es)
    decreases MAX_INCLUDE_DEPTH - depth
  {
    var h := Chain();
    var q := p + "f";
    var lines := [Setting("include", "", [q])];
    assert lines[1..] == [] && [q][1..] == [] && Absolute(q) == q;
    var inner := ExpandPattern(h, q, depth);
    assert inner + [] == inner;
    assert ExpandPatterns(h, [q], depth) == inner;
    assert ExpandLines(h, lines, depth) == inner;
    assert ([Opened(p)] + inner)[1..] == inner;
    if depth < MAX_INCLUDE_DEPTH {
      ChainFrom(q, depth + 1);
      var file := ExpandFile(h, q, depth + 1);
      assert file + [] == file;
      assert ExpandPaths(h, [q], depth) == file;
      assert inner == [Listed(q)] + file && inner[1..] == file;
    } else {
      assert inner == [Skipped(q, Directory(depth))] && inner[1..] == [];
      assert SkipsBeforeKex(inner) && !DependsOnUnread(inner);
    }
    assert ExpandFile(h, p, depth) == [Opened(p)] + inner;
  }

  /** For directories the flag can be set needlessly: one met at the depth limit raises it, although none
      of its files would have been read. */
  lemma {:induction false} DirectoryAtDepthLimit()
    ensures Parsed(Chain(), "/").kexUncertain
    ensures forall b :: Completes(Chain(), b, "/") ==> Kex(b, "/") == Kex(Chain(), "/")
  {
    ChainFrom("/", 0);
    hide Chain, ExpandFile, Completes, Kex;
    UncertainMeansSkipped(ExpandFile(Chain(), "/", 0), NOTHING);
    forall b | Completes(Chain(), b, "/") ensures Kex(b, "/") == Kex(Chain(), "/") {
      IndependentUnlessSkipped(Chain(), b, "/");
    }
  }
}
