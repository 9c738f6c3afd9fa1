/**
  The openssl.cnf reader: sections merge, later values win, and includes are read in place, with the
  current section threaded into an included file and back out.

  The recursive loader is proved to replay the text with every include inlined; `seen` cuts cycles.
 */
module OpensslConfig {
  import Sorting

  const MAX_INCLUDE_DEPTH: nat := 8

  // A line after comment stripping, as the include, section and key = value patterns class it.
  datatype Line =
    | Blank
    | Include(target: string)
    | Section(name: string)
    | Pair(key: string, value: string)

  datatype Listing = Entries(names: seq<string>) | NotADirectory | Unlistable

  datatype Reading = Text(lines: seq<Line>) | Missing | Denied

  // `locate(p, t)` is where the include target t of file p lies.
  datatype Host = Host(list: string -> Listing, read: string -> Reading, locate: (string, string) -> string)

  // What the loader meets, in order.
  datatype Item =
    | Opened(path: string)
    | Header(name: string)
    | Setting(key: string, value: string)
    | Cut(path: string)  // past the depth limit, or met before
    | Failed(path: string)
    | Unreadable(path: string)

  datatype Findings = Findings(sections: map<string, map<string, string>>, files: seq<string>,
                               errors: seq<string>, unreadable: seq<string>, current: string)

  const NOTHING := Findings(map[], [], [], [], "default")

  // The names a directory include reads, in order.
  function ConfigNames(names: seq<string>): seq<string> {
    Filter(Sorting.Sorted(names))
  }

  predicate IsConfigName(name: string) {
    EndsWith(name, ".cnf") || EndsWith(name, ".conf")
  }

  predicate EndsWith(s: string, suffix: string) {
    |s| >= |suffix| && s[|s| - |suffix|..] == suffix
  }

  function Filter(names: seq<string>): seq<string> {
    if names == [] then []
    else (if IsConfigName(names[0]) then [names[0]] else []) + Filter(names[1..])
  }

  // p.rstrip("/")
  function StripSlashes(p: string): string {
    if p != "" && p[|p| - 1] == '/' then StripSlashes(p[..|p| - 1]) else p
  }

  // ---- The inlined text ----

  // Items read, and the paths met so far.
  datatype Expansion = Expansion(items: seq<Item>, seen: set<string>)

  function After(items: seq<Item>, e: Expansion): Expansion {
    e.(items := items + e.items)
  }

  function Expand(h: Host, p: string, depth: nat, seen: set<string>): Expansion
    requires depth <= MAX_INCLUDE_DEPTH + 1
    decreases MAX_INCLUDE_DEPTH + 1 - depth, 1
  {
    if depth > MAX_INCLUDE_DEPTH || p in seen then Expansion([Cut(p)], seen)
    else match h.list(p)
      case Unlistable => Expansion([Unreadable(p)], seen + {p})
      case Entries(names) => ExpandNames(h, p, ConfigNames(names), depth, seen + {p})
      case NotADirectory =>
        match h.read(p)
        case Denied => Expansion([Unreadable(p)], seen + {p})
        case Missing => Expansion([Failed(p)], seen + {p})
        case Text(lines) => After([Opened(p)], ExpandLines(h, p, lines, depth, seen + {p}))
  }

  function ExpandNames(h: Host, p: string, names: seq<string>, depth: nat, seen: set<string>): Expansion
    requires depth <= MAX_INCLUDE_DEPTH
    decreases MAX_INCLUDE_DEPTH + 1 - depth, 0, |names|
  {
    if names == [] then Expansion([], seen)
    else
      var first := Expand(h, StripSlashes(p) + "/" + names[0], depth + 1, seen);
      After(first.items, ExpandNames(h, p, names[1..], depth, first.seen))
  }

  function ExpandLines(h: Host, p: string, lines: seq<Line>, depth: nat, seen: set<string>): Expansion
    requires depth <= MAX_INCLUDE_DEPTH
    decreases MAX_INCLUDE_DEPTH + 1 - depth, 0, |lines|
  {
    if lines == [] then Expansion([], seen)
    else match lines[0]
      case Blank => ExpandLines(h, p, lines[1..], depth, seen)
      case Include(target) =>
        var first := Expand(h, h.locate(p, target), depth + 1, seen);
        After(first.items, ExpandLines(h, p, lines[1..], depth, first.seen))
      case Section(name) => After([Header(name)], ExpandLines(h, p, lines[1..], depth, seen))
      case Pair(key, value) => After([Setting(key, value)], ExpandLines(h, p, lines[1..], depth, seen))
  }

  // ---- What the items leave in the parser ----

  function SectionOf(sections: map<string, map<string, string>>, name: string): map<string, string> {
    if name in sections then sections[name] else map[]
  }

  function Apply(i: Item, s: Findings): Findings {
    match i
    case Opened(p) => s.(files := s.files + [p])
    case Cut(p) => s.(errors := s.errors + [p])
    case Failed(p) => s.(errors := s.errors + [p])
    case Unreadable(p) => s.(errors := s.errors + [p], unreadable := s.unreadable + [p])
    case Header(name) => s.(current := name, sections := s.sections[name := SectionOf(s.sections, name)])
    case Setting(key, value) =>
      s.(sections := s.sections[s.current := SectionOf(s.sections, s.current)[key := value]])
  }

  function Replay(items: seq<Item>, s: Findings): Findings {
    if items == [] then s else Replay(items[1..], Apply(items[0], s))
  }

  lemma {:induction false} ReplayAppend(a: seq<Item>, b: seq<Item>, s: Findings)
    ensures Replay(a + b, s) == Replay(b, Replay(a, s))
    decreases |a|
  {
    if a == [] {
      assert a + b == b;
    } else {
      assert (a + b)[1..] == a[1..] + b;
      ReplayAppend(a[1..], b, Apply(a[0], s));
    }
  }

  // Replaying one more stretch of items, and what follows it.
  lemma {:induction false} Advance(done: seq<Item>, e: seq<Item>, rest: Expansion, before: Findings)
    ensures Replay(done + e, before) == Replay(e, Replay(done, before))
    ensures |e| == 1 ==> Replay(done + e, before) == Apply(e[0], Replay(done, before))
    ensures After(done, After(e, rest)) == After(done + e, rest)
  {
    ReplayAppend(done, e, before);
    assert |e| == 1 ==> e[1..] == [];
    assert done + (e + rest.items) == (done + e) + rest.items;
  }

  // ---- The loader ----

  class Parser {
    var sections: map<string, map<string, string>>
    var files: seq<string>
    var errors: seq<string>
    var unreadable: seq<string>
    var seen: set<string>

    function Found(current: string): Findings
      reads this
    {
      Findings(sections, files, errors, unreadable, current)
    }

    constructor ()
      ensures Found("default") == NOTHING && seen == {}
    {
      sections, files, errors, unreadable, seen := map[], [], [], [], {};
    }

    method Fail(i: Item, ghost current: string)
      requires i.Cut? || i.Failed? || i.Unreadable?
      modifies this
      ensures seen == old(seen) && Found(current) == Replay([i], old(Found(current)))
    {
      errors := errors + [i.path];
      if i.Unreadable? {
        unreadable := unreadable + [i.path];
      }
      assert [i][1..] == [];
    }

    /** The recursive loader; it returns the section that is current where it stops. */
    method Load(h: Host, p: string, current0: string, depth: nat) returns (current: string)
      requires depth <= MAX_INCLUDE_DEPTH + 1
      modifies this
      ensures Found(current) == Replay(Expand(h, p, depth, old(seen)).items, old(Found(current0)))
      ensures seen == Expand(h, p, depth, old(seen)).seen
      decreases MAX_INCLUDE_DEPTH + 1 - depth, 1
    {
      current := current0;
      if depth > MAX_INCLUDE_DEPTH || p in seen {
        Fail(Cut(p), current);
        return;
      }
      seen := seen + {p};
      var listing := h.list(p);
      if listing.Unlistable? {
        Fail(Unreadable(p), current);
        return;
      }
      if listing.Entries? {
        current := LoadNames(h, p, ConfigNames(listing.names), current, depth);
        return;
      }
      var reading := h.read(p);
      if reading.Denied? {
        Fail(Unreadable(p), current);
        return;
      }
      if reading.Missing? {
        Fail(Failed(p), current);
        return;
      }
      ghost var start, seen0 := Found(current), seen;
      files := files + [p];
      assert [Opened(p)][1..] == [];
      current := LoadLines(h, p, reading.lines, current, depth);
      ReplayAppend([Opened(p)], ExpandLines(h, p, reading.lines, depth, seen0).items, start);
    }

    /** The loop over the files of a directory include. */
    method LoadNames(h: Host, p: string, names: seq<string>, current0: string, depth: nat) returns (current: string)
      requires depth <= MAX_INCLUDE_DEPTH
      modifies this
      ensures Found(current) == Replay(ExpandNames(h, p, names, depth, old(seen)).items, old(Found(current0)))
      ensures seen == ExpandNames(h, p, names, depth, old(seen)).seen
      decreases MAX_INCLUDE_DEPTH + 1 - depth, 0
    {
      hide Expand, Replay;
      current := current0;
      ghost var before := Found(current0);
      ghost var whole := ExpandNames(h, p, names, depth, seen);
      ghost var done: seq<Item> := [];
      NothingReplayed(before);
      var i := 0;
      assert names[0..] == names;
      while i < |names|
        invariant i <= |names|
        invariant Found(current) == Replay(done, before)
        invariant whole == After(done, ExpandNames(h, p, names[i..], depth, seen))
      {
        assert names[i..][1..] == names[i + 1..];
        var path := StripSlashes(p) + "/" + names[i];
        ghost var first := Expand(h, path, depth + 1, seen);
        current := Load(h, path, current, depth + 1);
        i := i + 1;
        Advance(done, first.items, ExpandNames(h, p, names[i..], depth, seen), before);
        done := done + first.items;
      }
      assert done + [] == done;
    }

    /** The loop over the lines of a file. */
    method LoadLines(h: Host, p: string, lines: seq<Line>, current0: string, depth: nat) returns (current: string)
      requires depth <= MAX_INCLUDE_DEPTH
      modifies this
      ensures Found(current) == Replay(ExpandLines(h, p, lines, depth, old(seen)).items, old(Found(current0)))
      ensures seen == ExpandLines(h, p, lines, depth, old(seen)).seen
      decreases MAX_INCLUDE_DEPTH + 1 - depth, 0
    {
      hide Expand, Replay;
      current := current0;
      ghost var before := Found(current0);
      ghost var whole := ExpandLines(h, p, lines, depth, seen);
      ghost var done: seq<Item> := [];
      NothingReplayed(before);
      var i := 0;
      assert lines[0..] == lines;
      while i < |lines|
        invariant i <= |lines|
        invariant Found(current) == Replay(done, before)
        invariant whole == After(done, ExpandLines(h, p, lines[i..], depth, seen))
      {
        assert lines[i..][1..] == lines[i + 1..];
        ghost var rest := ExpandLines(h, p, lines[i + 1..], depth, seen);
        match lines[i] {
          case Blank =>
          case Include(target) =>
            var path := h.locate(p, target);
            ghost var first := Expand(h, path, depth + 1, seen);
            current := Load(h, path, current, depth + 1);
            Advance(done, first.items, ExpandLines(h, p, lines[i + 1..], depth, seen), before);
            done := done + first.items;
          case Section(name) =>
            current := name;
            if name !in sections {
              sections := sections[name := map[]];
            }
            Advance(done, [Header(name)], rest, before);
            done := done + [Header(name)];
          case Pair(key, value) =>
            if current !in sections {
              sections := sections[current := map[]];
            }
            sections := sections[current := sections[current][key := value]];
            Advance(done, [Setting(key, value)], rest, before);
            done := done + [Setting(key, value)];
        }
        i := i + 1;
      }
      assert done + [] == done;
    }
  }

  lemma {:induction false} NothingReplayed(s: Findings)
    ensures Replay([], s) == s
  {
  }

  method ParseOpensslCnf(h: Host, path: string) returns (found: Findings)
    ensures found == Replay(Expand(h, path, 0, {}).items, NOTHING)
  {
    var p := new Parser();
    var current := p.Load(h, path, "default", 0);
    found := p.Found(current);
  }
}
