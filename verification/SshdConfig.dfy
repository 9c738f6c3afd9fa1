/**
  The sshd_config reader: first obtained value wins, over a recursive Include walk that a Match line ends.

  The walk is proved to replay the text with every Include inlined.  What `kex_uncertain` promises is then
  a statement about that text: the value found does not depend on anything the scan could not read.
 */
module SshdConfig {
  const MAX_INCLUDE_DEPTH: nat := 16

  // A line as `_split_directive` cuts it; `words` is value.split().
  datatype Line = Blank | Setting(key: string, value: string, words: seq<string>)

  datatype Reading = Text(lines: seq<Line>) | Missing | Denied

  datatype Listing = Paths(paths: seq<string>) | Unlistable

  // What the scan can see of the host's files.
  datatype Host = Host(read: string -> Reading, glob: string -> Listing)

  // What could not be read: a file, or the directory of an Include pattern met at a depth.
  datatype Refusal = File | Directory(depth: nat)

  // What the walk meets, in order.
  datatype Event =
    | Opened(path: string)
    | Absent(path: string)
    | Listed(pattern: string)
    | Directive(key: string, value: string)
    | Skipped(path: string, what: Refusal)
    | MatchBlock

  datatype Findings = Findings(values: map<string, string>, hostKeys: seq<string>, files: seq<string>,
                               unreadable: seq<string>, kexUncertain: bool, stoppedAtMatch: bool)

  const NOTHING := Findings(map[], [], [], [], false, false)

  predicate IsKeyword(key: string) {
    key == "kexalgorithms" || key == "hostkeyalgorithms"
  }

  // ---- The inlined text ----

  predicate Ended(e: seq<Event>) {
    MatchBlock in e
  }

  function Then(a: seq<Event>, b: seq<Event>): seq<Event> {
    if Ended(a) then a else a + b
  }

  function Absolute(pattern: string): string {
    if pattern != "" && pattern[0] == '/' then pattern else "/etc/ssh/" + pattern
  }

  function ExpandFile(h: Host, path: string, depth: nat): seq<Event>
    requires depth <= MAX_INCLUDE_DEPTH + 1
    decreases MAX_INCLUDE_DEPTH + 1 - depth, 3
  {
    if depth > MAX_INCLUDE_DEPTH then []
    else match h.read(path)
      case Denied => [Skipped(path, File)]
      case Missing => [Absent(path)]
      case Text(lines) => [Opened(path)] + ExpandLines(h, lines, depth)
  }

  function ExpandLines(h: Host, lines: seq<Line>, depth: nat): seq<Event>
    requires depth <= MAX_INCLUDE_DEPTH
    decreases MAX_INCLUDE_DEPTH + 1 - depth, 2, |lines|
  {
    if lines == [] then []
    else match lines[0]
      case Blank => ExpandLines(h, lines[1..], depth)
      case Setting(key, value, words) =>
        if key == "match" then [MatchBlock]
        else if key == "include" then
          Then(ExpandPatterns(h, words, depth), ExpandLines(h, lines[1..], depth))
        else [Directive(key, value)] + ExpandLines(h, lines[1..], depth)
  }

  function ExpandPatterns(h: Host, words: seq<string>, depth: nat): seq<Event>
    requires depth <= MAX_INCLUDE_DEPTH
    decreases MAX_INCLUDE_DEPTH + 1 - depth, 1, |words|
  {
    if words == [] then []
    else Then(ExpandPattern(h, Absolute(words[0]), depth), ExpandPatterns(h, words[1..], depth))
  }

  function ExpandPattern(h: Host, pattern: string, depth: nat): seq<Event>
    requires depth <= MAX_INCLUDE_DEPTH
    decreases MAX_INCLUDE_DEPTH + 1 - depth, 1, 0
  {
    match h.glob(pattern)
    case Unlistable => [Skipped(pattern, Directory(depth))]
    case Paths(paths) => [Listed(pattern)] + ExpandPaths(h, paths, depth)
  }

  function ExpandPaths(h: Host, paths: seq<string>, depth: nat): seq<Event>
    requires depth <= MAX_INCLUDE_DEPTH
    decreases MAX_INCLUDE_DEPTH + 1 - depth, 0, |paths|
  {
    if paths == [] then []
    else Then(ExpandFile(h, paths[0], depth + 1), ExpandPaths(h, paths[1..], depth))
  }

  // ---- What the events leave in the parser ----

  function Apply(e: Event, s: Findings): Findings {
    match e
    case Opened(path) => s.(files := s.files + [path])
    case Absent(_) => s
    case Listed(_) => s
    case Skipped(path, _) =>
      s.(unreadable := s.unreadable + [path],
         kexUncertain := s.kexUncertain || "kexalgorithms" !in s.values)
    case MatchBlock => s.(stoppedAtMatch := true)
    case Directive(key, value) =>
      if key == "hostkey" && value != "" then s.(hostKeys := s.hostKeys + [value])
      else if IsKeyword(key) && key !in s.values && value != "" then s.(values := s.values[key := value])
      else s
  }

  function Replay(es: seq<Event>, s: Findings): Findings {
    if es == [] then s else Replay(es[1..], Apply(es[0], s))
  }

  lemma {:induction false} ReplayAppend(a: seq<Event>, b: seq<Event>, s: Findings)
    ensures Replay(a + b, s) == Replay(b, Replay(a, s))
    decreases |a|
  {
    if a == [] {
      assert a + b == b;
    } else {
      assert (a + b)[1..] == a[1..] + b;
      ReplayAppend(a[1..], b, Apply(a[0], s));
    }
  }

  lemma {:induction false} ReplayOne(a: seq<Event>, e: Event, s: Findings)
    ensures Replay(a + [e], s) == Apply(e, Replay(a, s))
  {
    ReplayAppend(a, [e], s);
    assert [e][1..] == [];
  }

  // ---- The walk ----

  class Parser {
    var values: map<string, string>
    var hostKeys: seq<string>
    var files: seq<string>
    var unreadable: seq<string>
    var kexUncertain: bool
    var stoppedAtMatch: bool

    function Found(): Findings
      reads this
    {
      Findings(values, hostKeys, files, unreadable, kexUncertain, stoppedAtMatch)
    }

    constructor ()
      ensures Found() == NOTHING
    {
      values, hostKeys, files, unreadable := map[], [], [], [];
      kexUncertain, stoppedAtMatch := false, false;
    }

    method Skip(path: string, ghost what: Refusal)
      modifies this
      ensures Found() == Apply(Skipped(path, what), old(Found()))
    {
      unreadable := unreadable + [path];
      if "kexalgorithms" !in values {
        kexUncertain := true;
      }
    }

    /** The recursive walk; `more` is false once a Match line ended global parsing. */
    method Walk(h: Host, path: string, depth: nat) returns (more: bool)
      requires depth <= MAX_INCLUDE_DEPTH + 1
      modifies this
      ensures Found() == Replay(ExpandFile(h, path, depth), old(Found()))
      ensures more == !Ended(ExpandFile(h, path, depth))
      decreases MAX_INCLUDE_DEPTH + 1 - depth
    {
      if depth > MAX_INCLUDE_DEPTH {
        return true;
      }
      FileUnfolds(h, path, depth);
      hide ExpandLines, Then, ExpandPatterns, Replay, ExpandFile;
      var reading := h.read(path);
      if reading.Denied? {
        Skip(path, File);
        return true;
      }
      if reading.Missing? {
        return true;
      }
      ghost var before := Found();
      files := files + [path];
      more := WalkLines(h, reading.lines, depth, before, Opened(path));
    }

    /** The loop over the lines of a file, which have been replayed onto `before` after the event `first`. */
    method WalkLines(h: Host, lines: seq<Line>, depth: nat, ghost before: Findings, ghost first: Event)
      returns (more: bool)
      requires depth <= MAX_INCLUDE_DEPTH && first != MatchBlock && Found() == Apply(first, before)
      modifies this
      ensures Found() == Replay([first] + ExpandLines(h, lines, depth), before)
      ensures more == !Ended([first] + ExpandLines(h, lines, depth))
      decreases MAX_INCLUDE_DEPTH + 1 - depth, 2
    {
      hide ExpandLines, Then, ExpandPatterns, Replay;
      ghost var whole := [first] + ExpandLines(h, lines, depth);
      ghost var done := [first];
      ReplayOne([], first, before);
      assert lines[0..] == lines && [] + [first] == [first];
      assert Replay([], before) == before by { ReplayNothing(before); }
      var i := 0;
      while i < |lines|
        invariant i <= |lines|
        invariant !Ended(done) && Found() == Replay(done, before)
        invariant whole == done + ExpandLines(h, lines[i..], depth)
      {
        LineUnfolds(h, lines, i, depth);
        var line := lines[i];
        ghost var rest := ExpandLines(h, lines[i + 1..], depth);
        i := i + 1;
        if line.Blank? {
          continue;
        }
        if line.key == "match" {
          stoppedAtMatch := true;
          ReplayOne(done, MatchBlock, before);
          return false;
        }
        if line.key == "include" {
          more, done := Include(h, line.words, depth, before, done, rest);
          if !more {
            return false;
          }
          continue;
        }
        Set(line.key, line.value);
        ghost var e := Directive(line.key, line.value);
        ReplayOne(done, e, before);
        assert done + ([e] + rest) == (done + [e]) + rest;
        done := done + [e];
      }
      LineUnfolds(h, lines, i, depth);
      assert done + [] == done;
      return true;
    }

    /** What a line other than Match and Include does. */
    method Set(key: string, value: string)
      modifies this
      ensures Found() == Apply(Directive(key, value), old(Found()))
    {
      if key == "hostkey" && value != "" {
        hostKeys := hostKeys + [value];
      } else if IsKeyword(key) && key !in values && value != "" {
        values := values[key := value];
      }
    }

    /** The loop over the patterns of one Include line.  `done0` is what has been replayed onto `before`,
        `after` what follows the Include line. */
    method Include(h: Host, words: seq<string>, depth: nat, ghost before: Findings, ghost done0: seq<Event>,
                   ghost after: seq<Event>)
      returns (more: bool, ghost done: seq<Event>)
      requires depth <= MAX_INCLUDE_DEPTH
      requires !Ended(done0) && Found() == Replay(done0, before)
      modifies this
      ensures Found() == Replay(done, before) && more == !Ended(done)
      ensures done0 + Then(ExpandPatterns(h, words, depth), after) == if more then done + after else done
      decreases MAX_INCLUDE_DEPTH + 1 - depth, 1
    {
      hide ExpandPatterns, ExpandPattern, ExpandPaths, ExpandFile, Replay, Then, Ended, Apply;
      done := done0;
      ghost var whole := done + Then(ExpandPatterns(h, words, depth), after);
      var j := 0;
      assert words[0..] == words;
      while j < |words|
        invariant j <= |words|
        invariant !Ended(done) && Found() == Replay(done, before)
        invariant whole == done + Then(ExpandPatterns(h, words[j..], depth), after)
      {
        PatternsUnfold(h, words, j, depth, after);
        var pattern := words[j];
        if pattern == "" || pattern[0] != '/' {
          pattern := "/etc/ssh/" + pattern;
        }
        j := j + 1;
        ghost var later := Then(ExpandPatterns(h, words[j..], depth), after);
        var listing := h.glob(pattern);
        PatternUnfolds(h, pattern, depth, later);
        if listing.Unlistable? {
          ghost var skipped := [Skipped(pattern, Directory(depth))];
          Skip(pattern, Directory(depth));
          Advance(done, skipped, later, before);
          done := done + skipped;
          continue;
        }
        Advance(done, [Listed(pattern)], Then(ExpandPaths(h, listing.paths, depth), later), before);
        done := done + [Listed(pattern)];
        more, done := IncludePaths(h, listing.paths, depth, before, done, later);
        if !more {
          return false, done;
        }
      }
      PatternsUnfold(h, words, j, depth, after);
      return true, done;
    }

    /** The loop over the files one pattern names. */
    method IncludePaths(h: Host, paths: seq<string>, depth: nat, ghost before: Findings,
                        ghost done0: seq<Event>, ghost after: seq<Event>)
      returns (more: bool, ghost done: seq<Event>)
      requires depth <= MAX_INCLUDE_DEPTH
      requires !Ended(done0) && Found() == Replay(done0, before)
      modifies this
      ensures Found() == Replay(done, before) && more == !Ended(done)
      ensures done0 + Then(ExpandPaths(h, paths, depth), after) == if more then done + after else done
      decreases MAX_INCLUDE_DEPTH + 1 - depth, 0
    {
      hide ExpandPaths, ExpandFile, Replay, Then, Ended;
      done := done0;
      ghost var whole := done + Then(ExpandPaths(h, paths, depth), after);
      var k := 0;
      assert paths[0..] == paths;
      while k < |paths|
        invariant k <= |paths|
        invariant !Ended(done) && Found() == Replay(done, before)
        invariant whole == done + Then(ExpandPaths(h, paths[k..], depth), after)
      {
        PathsUnfold(h, paths, k, depth, after);
        ghost var file := ExpandFile(h, paths[k], depth + 1);
        more := Walk(h, paths[k], depth + 1);
        k := k + 1;
        Advance(done, file, Then(ExpandPaths(h, paths[k..], depth), after), before);
        done := done + file;
        if !more {
          return false, done;
        }
      }
      PathsUnfold(h, paths, k, depth, after);
      return true, done;
    }
  }

  lemma {:induction false} ReplayNothing(s: Findings)
    ensures Replay([], s) == s
  {
  }

  lemma {:induction false} FileUnfolds(h: Host, path: string, depth: nat)
    requires depth <= MAX_INCLUDE_DEPTH
    ensures ExpandFile(h, path, depth) ==
            match h.read(path)
            case Denied => [Skipped(path, File)]
            case Missing => [Absent(path)]
            case Text(lines) => [Opened(path)] + ExpandLines(h, lines, depth)
    ensures forall e, s :: Replay([e], s) == Apply(e, s)
  {
    hide ExpandLines;
    forall e: Event ensures [e][1..] == [] {}
  }

  lemma {:induction false} LineUnfolds(h: Host, lines: seq<Line>, i: nat, depth: nat)
    requires i <= |lines| && depth <= MAX_INCLUDE_DEPTH
    ensures ExpandLines(h, lines[i..], depth) ==
            if i == |lines| then []
            else
              var rest := ExpandLines(h, lines[i + 1..], depth);
              match lines[i]
              case Blank => rest
              case Setting(key, value, words) =>
                if key == "match" then [MatchBlock]
                else if key == "include" then Then(ExpandPatterns(h, words, depth), rest)
                else [Directive(key, value)] + rest
  {
    hide Then, ExpandPatterns;
    if i < |lines| {
      assert lines[i..][1..] == lines[i + 1..];
    }
  }

  lemma {:induction false} PatternsUnfold(h: Host, words: seq<string>, j: nat, depth: nat, after: seq<Event>)
    requires depth <= MAX_INCLUDE_DEPTH && j <= |words|
    ensures Then(ExpandPatterns(h, words[j..], depth), after) ==
            if j == |words| then after
            else Then(ExpandPattern(h, Absolute(words[j]), depth),
                      Then(ExpandPatterns(h, words[j + 1..], depth), after))
  {
    if j < |words| {
      assert words[j..][1..] == words[j + 1..];
      hide ExpandPattern;
      ThenAssociates(ExpandPattern(h, Absolute(words[j]), depth), ExpandPatterns(h, words[j + 1..], depth), after);
    }
  }

  lemma {:induction false} PathsUnfold(h: Host, paths: seq<string>, k: nat, depth: nat, after: seq<Event>)
    requires depth <= MAX_INCLUDE_DEPTH && k <= |paths|
    ensures Then(ExpandPaths(h, paths[k..], depth), after) ==
            if k == |paths| then after
            else Then(ExpandFile(h, paths[k], depth + 1), Then(ExpandPaths(h, paths[k + 1..], depth), after))
  {
    if k < |paths| {
      assert paths[k..][1..] == paths[k + 1..];
      hide ExpandFile;
      ThenAssociates(ExpandFile(h, paths[k], depth + 1), ExpandPaths(h, paths[k + 1..], depth), after);
    }
  }

  lemma {:induction false} PatternUnfolds(h: Host, pattern: string, depth: nat, later: seq<Event>)
    requires depth <= MAX_INCLUDE_DEPTH
    ensures Then(ExpandPattern(h, pattern, depth), later) ==
            match h.glob(pattern)
            case Unlistable => Then([Skipped(pattern, Directory(depth))], later)
            case Paths(paths) => Then([Listed(pattern)], Then(ExpandPaths(h, paths, depth), later))
    ensures forall e, s :: Replay([e], s) == Apply(e, s)
    ensures forall e :: Ended([e]) <==> e == MatchBlock
    ensures forall s :: Apply(Listed(pattern), s) == s
  {
    forall e: Event ensures [e][1..] == [] {}
    if h.glob(pattern).Paths? {
      ThenAssociates([Listed(pattern)], ExpandPaths(h, h.glob(pattern).paths, depth), later);
    }
  }

  // Replaying one more stretch of events.
  lemma {:induction false} Advance(done: seq<Event>, e: seq<Event>, rest: seq<Event>, before: Findings)
    requires !Ended(done)
    ensures Ended(done + e) == Ended(e)
    ensures Replay(done + e, before) == Replay(e, Replay(done, before))
    ensures done + Then(e, rest) == if Ended(e) then done + e else (done + e) + rest
  {
    EndedAppend(done, e);
    ReplayAppend(done, e, before);
    assert done + (e + rest) == (done + e) + rest;
  }

  lemma {:induction false} EndedAppend(a: seq<Event>, b: seq<Event>)
    requires !Ended(a)
    ensures Ended(a + b) == Ended(b)
  {
    if b == [] {
      assert a + b == a;
    }
  }

  lemma {:induction false} ThenAssociates(a: seq<Event>, b: seq<Event>, c: seq<Event>)
    ensures Then(Then(a, b), c) == Then(a, Then(b, c))
  {
    if !Ended(a) {
      EndedAppend(a, b);
      assert a + (b + c) == (a + b) + c;
    }
  }

  method ParseSshdConfig(h: Host, mainPath: string) returns (found: Findings)
    ensures found == Replay(ExpandFile(h, mainPath, 0), NOTHING)
  {
    var p := new Parser();
    var _ := p.Walk(h, mainPath, 0);
    found := p.Found();
  }
}
