/** What the openssl.cnf reader means: the last value of the text with its includes inlined. */
module OpensslInlining {
  import opened OpensslConfig
  import Sorting
  import opened Options

  // ---- Last value wins ----

  // The section in force at the end of the items.
  function CurrentAt(items: seq<Item>, start: string): string {
    if items == [] then start
    else
      var n := |items| - 1;
      if items[n].Header? then items[n].name else CurrentAt(items[..n], start)
  }

  // The last value given to `key` while `section` was in force.
  function LastValue(items: seq<Item>, start: string, section: string, key: string): Option<string> {
    if items == [] then None
    else
      var n := |items| - 1;
      if items[n].Setting? && items[n].key == key && CurrentAt(items[..n], start) == section
      then Some(items[n].value)
      else LastValue(items[..n], start, section, key)
  }

  // The section was opened by a header or by a value.
  predicate Named(items: seq<Item>, start: string, section: string) {
    items != [] &&
    var n := |items| - 1;
    || items[n] == Header(section)
    || (items[n].Setting? && CurrentAt(items[..n], start) == section)
    || Named(items[..n], start, section)
  }

  function Lookup(sections: map<string, map<string, string>>, section: string, key: string): Option<string> {
    if section in sections && key in sections[section] then Some(sections[section][key]) else None
  }

  /** The parsed sections are exactly those named, and each key holds the last value given to it there. */
  lemma {:induction false} LastValueWins(items: seq<Item>, section: string, key: string)
    ensures var s := Replay(items, NOTHING);
            && s.current == CurrentAt(items, "default")
            && Lookup(s.sections, section, key) == LastValue(items, "default", section, key)
            && (section in s.sections <==> Named(items, "default", section))
    decreases |items|
  {
    if items != [] {
      var n := |items| - 1;
      LastValueWins(items[..n], section, key);
      assert items == items[..n] + [items[n]];
      ReplayAppend(items[..n], [items[n]], NOTHING);
      assert [items[n]][1..] == [];
    }
  }

  // The file an item opens, and what it reports.
  function FileOf(i: Item): seq<string> {
    if i.Opened? then [i.path] else []
  }

  function ErrorOf(i: Item): seq<string> {
    if i.Cut? || i.Failed? || i.Unreadable? then [i.path] else []
  }

  function RefusalOf(i: Item): seq<string> {
    if i.Unreadable? then [i.path] else []
  }

  function Collect(items: seq<Item>, f: Item -> seq<string>): seq<string> {
    if items == [] then [] else f(items[0]) + Collect(items[1..], f)
  }

  /** Files, errors and what could not be read are listed in the order they are met. */
  lemma {:induction false} ListsAreInOrder(items: seq<Item>, s: Findings)
    ensures var r := Replay(items, s);
            && r.files == s.files + Collect(items, FileOf) && r.errors == s.errors + Collect(items, ErrorOf)
            && r.unreadable == s.unreadable + Collect(items, RefusalOf)
    decreases |items|
  {
    hide Apply, FileOf, ErrorOf, RefusalOf;
    if items == [] {
      assert s.files + [] == s.files && s.errors + [] == s.errors && s.unreadable + [] == s.unreadable;
    } else {
      var i, rest := items[0], items[1..];
      ListsAreInOrder(rest, Apply(i, s));
      OneInOrder(i, s);
      Regroup(s.files, FileOf(i), Collect(rest, FileOf));
      Regroup(s.errors, ErrorOf(i), Collect(rest, ErrorOf));
      Regroup(s.unreadable, RefusalOf(i), Collect(rest, RefusalOf));
    }
  }

  lemma {:induction false} OneInOrder(i: Item, s: Findings)
    ensures var r := Apply(i, s);
            && r.files == s.files + FileOf(i) && r.errors == s.errors + ErrorOf(i)
            && r.unreadable == s.unreadable + RefusalOf(i)
  {
    assert s.files + [] == s.files && s.errors + [] == s.errors && s.unreadable + [] == s.unreadable;
  }

  lemma {:induction false} Regroup(a: seq<string>, b: seq<string>, c: seq<string>)
    ensures (a + b) + c == a + (b + c)
  {
  }

  // ---- Directories and depth ----

  ghost predicate NamesConfig(name: string) {
    exists stem: string | |stem| <= |name| :: name == stem + ".cnf" || name == stem + ".conf"
  }

  lemma {:induction false} ConfigIs(name: string)
    ensures IsConfigName(name) <==> NamesConfig(name)
  {
    if EndsWith(name, ".cnf") {
      assert name == name[..|name| - 4] + ".cnf";
    }
    if EndsWith(name, ".conf") {
      assert name == name[..|name| - 5] + ".conf";
    }
    forall stem: string, suffix: string | name == stem + suffix ensures EndsWith(name, suffix) {
      assert name[|stem|..] == suffix;
    }
  }

  lemma {:induction false} FilterCounts(names: seq<string>, name: string)
    ensures multiset(Filter(names))[name] == if IsConfigName(name) then multiset(names)[name] else 0
    decreases |names|
  {
    hide IsConfigName;
    if names != [] {
      FilterCounts(names[1..], name);
      assert names == [names[0]] + names[1..];
    }
  }

  // Leaving names out leaves the others in order.
  lemma {:induction false} FilterSorted(names: seq<string>)
    requires Sorting.IsSorted(names)
    ensures Sorting.IsSorted(Filter(names))
    ensures Filter(names) != [] ==> Sorting.AtMost(names[0], Filter(names)[0])
    decreases |names|
  {
    hide IsConfigName, Sorting.AtMost;
    if names != [] {
      FilterSorted(names[1..]);
      var rest := Filter(names[1..]);
      Reflexive(names[0]);
      if rest != [] {
        Sorting.Transitive(names[0], names[1], rest[0]);
      }
      assert ([names[0]] + rest)[1..] == rest && [] + rest == rest;
      assert rest == [] ==> [names[0]] + rest == [names[0]];
    }
  }

  lemma {:induction false} Reflexive(a: string)
    ensures Sorting.AtMost(a, a)
  {
    if a != "" {
      Reflexive(a[1..]);
    }
  }

  /** A directory stands for its files that end in ".cnf" or ".conf", each as often as it is listed, in sorted order. */
  lemma {:induction false} DirectoryMeans(names: seq<string>, name: string)
    ensures Sorting.IsSorted(ConfigNames(names))
    ensures multiset(ConfigNames(names))[name] == if NamesConfig(name) then multiset(names)[name] else 0
  {
    hide IsConfigName, NamesConfig, Filter;
    Sorting.SortedIsSorted(names);
    FilterSorted(Sorting.Sorted(names));
    FilterCounts(Sorting.Sorted(names), name);
    ConfigIs(name);
  }

  /** Such a file's path is that of the directory, its last slashes dropped, "/" and the name. */
  lemma {:induction false} DirectoryPath(p: string)
    ensures var r := StripSlashes(p);
            && |r| <= |p| && p[..|r|] == r && (forall i | |r| <= i < |p| :: p[i] == '/')
            && (r != "" ==> r[|r| - 1] != '/')
  {
    if p != "" && p[|p| - 1] == '/' {
      DirectoryPath(p[..|p| - 1]);
    }
  }

  /** Files are read down to the eighth level of includes and not at the ninth. */
  lemma {:induction false} DepthLimit(h: Host, p: string, seen: set<string>)
    ensures Expand(h, p, 9, seen).items == [Cut(p)]
    ensures p !in seen && h.list(p) == NotADirectory ==>
              var item := match h.read(p)
                          case Denied => Unreadable(p)
                          case Missing => Failed(p)
                          case Text(_) => Opened(p);
              [item] <= Expand(h, p, 8, seen).items
  {
    hide ExpandLines;
  }

  // ---- No file is read twice ----

  function Opens(items: seq<Item>): seq<string> {
    if items == [] then []
    else (if items[0].Opened? then [items[0].path] else []) + Opens(items[1..])
  }

  lemma {:induction false} OpensAppend(a: seq<Item>, b: seq<Item>)
    ensures Opens(a + b) == Opens(a) + Opens(b)
    decreases |a|
  {
    if a == [] {
      assert a + b == b;
    } else {
      assert (a + b)[1..] == a[1..] + b;
      OpensAppend(a[1..], b);
    }
  }

  lemma {:induction false} OpensOne(i: Item)
    ensures Opens([i]) == if i.Opened? then [i.path] else []
  {
    assert [i][1..] == [];
  }

  ghost predicate Distinct(ps: seq<string>) {
    forall i, j | 0 <= i < j < |ps| :: ps[i] != ps[j]
  }

  // The files opened are distinct, new, and remembered.
  ghost predicate OpensOnce(e: Expansion, seen: set<string>) {
    && seen <= e.seen && Distinct(Opens(e.items))
    && forall p | p in Opens(e.items) :: p !in seen && p in e.seen
  }

  lemma {:induction false} OnceAfter(items: seq<Item>, seen: set<string>, middle: set<string>, e: Expansion)
    requires OpensOnce(Expansion(items, middle), seen) && OpensOnce(e, middle)
    ensures OpensOnce(After(items, e), seen)
  {
    OpensAppend(items, e.items);
    var a, b := Opens(items), Opens(e.items);
    forall i, j | 0 <= i < j < |a + b| ensures (a + b)[i] != (a + b)[j] {
      if i < |a| <= j {
        assert a[i] in middle && b[j - |a|] !in middle;
      }
    }
  }

  lemma {:induction false} ExpandOpensOnce(h: Host, p: string, depth: nat, seen: set<string>)
    requires depth <= MAX_INCLUDE_DEPTH + 1
    ensures OpensOnce(Expand(h, p, depth, seen), seen)
    decreases MAX_INCLUDE_DEPTH + 1 - depth, 1
  {
    OpensOne(Cut(p));
    OpensOne(Unreadable(p));
    OpensOne(Failed(p));
    if depth <= MAX_INCLUDE_DEPTH && p !in seen {
      match h.list(p)
      case Unlistable =>
      case Entries(names) =>
        NamesOpenOnce(h, p, ConfigNames(names), depth, seen + {p});
      case NotADirectory =>
        if h.read(p).Text? {
          var e := ExpandLines(h, p, h.read(p).lines, depth, seen + {p});
          LinesOpenOnce(h, p, h.read(p).lines, depth, seen + {p});
          OpensOne(Opened(p));
          hide ExpandLines;
          OnceAfter([Opened(p)], seen, seen + {p}, e);
        }
    }
  }

  lemma {:induction false} NamesOpenOnce(h: Host, p: string, names: seq<string>, depth: nat, seen: set<string>)
    requires depth <= MAX_INCLUDE_DEPTH
    ensures OpensOnce(ExpandNames(h, p, names, depth, seen), seen)
    decreases MAX_INCLUDE_DEPTH + 1 - depth, 0, |names|
  {
    if names != [] {
      var path := StripSlashes(p) + "/" + names[0];
      var first := Expand(h, path, depth + 1, seen);
      ExpandOpensOnce(h, path, depth + 1, seen);
      NamesOpenOnce(h, p, names[1..], depth, first.seen);
      hide Expand, OpensOnce;
      OnceAfter(first.items, seen, first.seen, ExpandNames(h, p, names[1..], depth, first.seen));
    }
  }

  lemma {:induction false} LinesOpenOnce(h: Host, p: string, lines: seq<Line>, depth: nat, seen: set<string>)
    requires depth <= MAX_INCLUDE_DEPTH
    ensures OpensOnce(ExpandLines(h, p, lines, depth, seen), seen)
    decreases MAX_INCLUDE_DEPTH + 1 - depth, 0, |lines|
  {
    if lines != [] {
      match lines[0]
      case Blank => LinesOpenOnce(h, p, lines[1..], depth, seen);
      case Include(target) =>
        var path := h.locate(p, target);
        var first := Expand(h, path, depth + 1, seen);
        ExpandOpensOnce(h, path, depth + 1, seen);
        LinesOpenOnce(h, p, lines[1..], depth, first.seen);
        hide Expand, OpensOnce;
        OnceAfter(first.items, seen, first.seen, ExpandLines(h, p, lines[1..], depth, first.seen));
      case Section(name) => LineOpensNothing(h, p, lines, depth, seen, Header(name));
      case Pair(key, value) => LineOpensNothing(h, p, lines, depth, seen, Setting(key, value));
    }
  }

  lemma {:induction false} LineOpensNothing(h: Host, p: string, lines: seq<Line>, depth: nat, seen: set<string>,
                                            i: Item)
    requires depth <= MAX_INCLUDE_DEPTH && lines != [] && !i.Opened?
    ensures OpensOnce(After([i], ExpandLines(h, p, lines[1..], depth, seen)), seen)
    decreases MAX_INCLUDE_DEPTH + 1 - depth, 0, |lines|, 0
  {
    LinesOpenOnce(h, p, lines[1..], depth, seen);
    OpensOne(i);
    hide ExpandLines;
    OnceAfter([i], seen, seen, ExpandLines(h, p, lines[1..], depth, seen));
  }

  lemma {:induction false} FilesAreOpens(items: seq<Item>, s: Findings)
    ensures Replay(items, s).files == s.files + Opens(items)
    decreases |items|
  {
    if items != [] {
      FilesAreOpens(items[1..], Apply(items[0], s));
    }
  }

  /** No file is read twice, on any include graph, cyclic ones included. */
  lemma {:induction false} NoFileTwice(h: Host, path: string)
    ensures Distinct(Replay(Expand(h, path, 0, {}).items, NOTHING).files)
  {
    ExpandOpensOnce(h, path, 0, {});
    FilesAreOpens(Expand(h, path, 0, {}).items, NOTHING);
  }

  // ---- Plain inlining ----

  // The text with every include replaced by the text it names, up to `fuel` levels, nothing remembered.
  function Inline(h: Host, p: string, fuel: nat): seq<Item>
    decreases fuel, 1
  {
    if fuel == 0 then [Cut(p)]
    else match h.list(p)
      case Unlistable => [Unreadable(p)]
      case Entries(names) => InlineNames(h, p, ConfigNames(names), fuel - 1)
      case NotADirectory =>
        match h.read(p)
        case Denied => [Unreadable(p)]
        case Missing => [Failed(p)]
        case Text(lines) => [Opened(p)] + InlineLines(h, p, lines, fuel - 1)
  }

  function InlineNames(h: Host, p: string, names: seq<string>, fuel: nat): seq<Item>
    decreases fuel, 2, |names|
  {
    if names == [] then []
    else Inline(h, StripSlashes(p) + "/" + names[0], fuel) + InlineNames(h, p, names[1..], fuel)
  }

  function InlineLines(h: Host, p: string, lines: seq<Line>, fuel: nat): seq<Item>
    decreases fuel, 2, |lines|
  {
    if lines == [] then []
    else
      (match lines[0]
       case Blank => []
       case Include(target) => Inline(h, h.locate(p, target), fuel)
       case Section(name) => [Header(name)]
       case Pair(key, value) => [Setting(key, value)])
      + InlineLines(h, p, lines[1..], fuel)
  }

  ghost predicate NoCut(items: seq<Item>) {
    forall i | 0 <= i < |items| :: !items[i].Cut?
  }

  lemma {:induction false} NoCutAppend(a: seq<Item>, b: seq<Item>)
    ensures NoCut(a + b) <==> NoCut(a) && NoCut(b)
  {
    if NoCut(a + b) {
      forall i | 0 <= i < |a| ensures !a[i].Cut? { assert (a + b)[i] == a[i]; }
      forall i | 0 <= i < |b| ensures !b[i].Cut? { assert (a + b)[|a| + i] == b[i]; }
    }
  }

  lemma {:induction false} CutAtOnce(h: Host, p: string, depth: nat, seen: set<string>)
    requires depth == MAX_INCLUDE_DEPTH + 1 || (depth <= MAX_INCLUDE_DEPTH && p in seen)
    ensures Expand(h, p, depth, seen).items == [Cut(p)] && !NoCut([Cut(p)])
  {
    assert [Cut(p)][0].Cut?;
  }

  lemma {:induction false} ExpandInlines(h: Host, p: string, depth: nat, seen: set<string>, fuel: nat)
    requires depth <= MAX_INCLUDE_DEPTH + 1 && fuel >= MAX_INCLUDE_DEPTH + 1 - depth
    requires NoCut(Expand(h, p, depth, seen).items)
    ensures Inline(h, p, fuel) == Expand(h, p, depth, seen).items
    decreases MAX_INCLUDE_DEPTH + 1 - depth, 1
  {
    if depth > MAX_INCLUDE_DEPTH || p in seen {
      CutAtOnce(h, p, depth, seen);
    } else {
      match h.list(p)
      case Unlistable =>
      case Entries(names) => NamesInline(h, p, ConfigNames(names), depth, seen + {p}, fuel - 1);
      case NotADirectory =>
        if h.read(p).Text? {
          var lines := h.read(p).lines;
          NoCutAppend([Opened(p)], ExpandLines(h, p, lines, depth, seen + {p}).items);
          LinesInline(h, p, lines, depth, seen + {p}, fuel - 1);
        }
    }
  }

  lemma {:induction false} NamesInline(h: Host, p: string, names: seq<string>, depth: nat, seen: set<string>, fuel: nat)
    requires depth <= MAX_INCLUDE_DEPTH && fuel >= MAX_INCLUDE_DEPTH - depth
    requires NoCut(ExpandNames(h, p, names, depth, seen).items)
    ensures InlineNames(h, p, names, fuel) == ExpandNames(h, p, names, depth, seen).items
    decreases MAX_INCLUDE_DEPTH + 1 - depth, 0, |names|
  {
    if names != [] {
      var path := StripSlashes(p) + "/" + names[0];
      var first := Expand(h, path, depth + 1, seen);
      NoCutAppend(first.items, ExpandNames(h, p, names[1..], depth, first.seen).items);
      ExpandInlines(h, path, depth + 1, seen, fuel);
      NamesInline(h, p, names[1..], depth, first.seen, fuel);
    }
  }

  lemma {:induction false} LinesInline(h: Host, p: string, lines: seq<Line>, depth: nat, seen: set<string>, fuel: nat)
    requires depth <= MAX_INCLUDE_DEPTH && fuel >= MAX_INCLUDE_DEPTH - depth
    requires NoCut(ExpandLines(h, p, lines, depth, seen).items)
    ensures InlineLines(h, p, lines, fuel) == ExpandLines(h, p, lines, depth, seen).items
    decreases MAX_INCLUDE_DEPTH + 1 - depth, 0, |lines|
  {
    if lines != [] {
      hide Expand, Inline, NoCut;
      match lines[0]
      case Blank =>
        LinesInline(h, p, lines[1..], depth, seen, fuel);
        assert [] + InlineLines(h, p, lines[1..], fuel) == InlineLines(h, p, lines[1..], fuel);
      case Include(target) =>
        var path := h.locate(p, target);
        var first := Expand(h, path, depth + 1, seen);
        NoCutAppend(first.items, ExpandLines(h, p, lines[1..], depth, first.seen).items);
        ExpandInlines(h, path, depth + 1, seen, fuel);
        LinesInline(h, p, lines[1..], depth, first.seen, fuel);
      case Section(name) =>
        NoCutAppend([Header(name)], ExpandLines(h, p, lines[1..], depth, seen).items);
        LinesInline(h, p, lines[1..], depth, seen, fuel);
      case Pair(key, value) =>
        NoCutAppend([Setting(key, value)], ExpandLines(h, p, lines[1..], depth, seen).items);
        LinesInline(h, p, lines[1..], depth, seen, fuel);
    }
  }

  // The paths plain inlining meets, in order, above the level where the fuel ends.
  function Met(h: Host, p: string, fuel: nat): seq<string>
    decreases fuel, 1
  {
    if fuel == 0 then []
    else
      [p] + match h.list(p)
            case Unlistable => []
            case Entries(names) => MetNames(h, p, ConfigNames(names), fuel - 1)
            case NotADirectory => if h.read(p).Text? then MetLines(h, p, h.read(p).lines, fuel - 1) else []
  }

  function MetNames(h: Host, p: string, names: seq<string>, fuel: nat): seq<string>
    decreases fuel, 2, |names|
  {
    if names == [] then []
    else Met(h, StripSlashes(p) + "/" + names[0], fuel) + MetNames(h, p, names[1..], fuel)
  }

  function MetLines(h: Host, p: string, lines: seq<Line>, fuel: nat): seq<string>
    decreases fuel, 2, |lines|
  {
    if lines == [] then []
    else (if lines[0].Include? then Met(h, h.locate(p, lines[0].target), fuel) else [])
         + MetLines(h, p, lines[1..], fuel)
  }

  function Paths(ps: seq<string>): set<string> {
    set p | p in ps
  }

  ghost predicate New(ps: seq<string>, seen: set<string>) {
    Distinct(ps) && Paths(ps) !! seen
  }

  lemma {:induction false} NewAppend(a: seq<string>, b: seq<string>, seen: set<string>)
    ensures New(a + b, seen) <==> New(a, seen) && New(b, seen + Paths(a))
    ensures Paths(a + b) == Paths(a) + Paths(b)
  {
    DistinctAppend(a, b);
    hide Distinct;
    assert forall p :: p in Paths(a + b) <==> p in Paths(a) || p in Paths(b);
  }

  lemma {:induction false} DistinctAppend(a: seq<string>, b: seq<string>)
    ensures Distinct(a + b) <==> Distinct(a) && Distinct(b) && Paths(a) !! Paths(b)
  {
    var c := a + b;
    if Distinct(c) {
      forall i, j | 0 <= i < j < |a| ensures a[i] != a[j] { assert c[i] == a[i] && c[j] == a[j]; }
      forall i, j | 0 <= i < j < |b| ensures b[i] != b[j] { assert c[|a| + i] == b[i] && c[|a| + j] == b[j]; }
      forall i, j | 0 <= i < |a| && 0 <= j < |b| ensures a[i] != b[j] { assert c[i] == a[i] && c[|a| + j] == b[j]; }
    }
    if Distinct(a) && Distinct(b) && Paths(a) !! Paths(b) {
      forall i, j | 0 <= i < j < |c| ensures c[i] != c[j] {
        assert i < |a| ==> a[i] in Paths(a);
        assert j >= |a| ==> b[j - |a|] in Paths(b);
        assert i >= |a| ==> c[i] == b[i - |a|];
      }
    }
  }

  // What cuts nothing met only new paths, and remembers just them.
  ghost predicate CutsNothingIff(e: Expansion, seen: set<string>, met: seq<string>, plain: seq<Item>) {
    && (NoCut(e.items) <==> New(met, seen) && NoCut(plain))
    && (NoCut(e.items) ==> e.seen == seen + Paths(met))
  }

  lemma {:induction false} CutsAppend(items: seq<Item>, middle: set<string>, e: Expansion, seen: set<string>,
                                      met1: seq<string>, plain1: seq<Item>, met2: seq<string>, plain2: seq<Item>)
    requires CutsNothingIff(Expansion(items, middle), seen, met1, plain1)
    requires NoCut(items) ==> CutsNothingIff(e, middle, met2, plain2)
    ensures CutsNothingIff(After(items, e), seen, met1 + met2, plain1 + plain2)
  {
    NoCutAppend(items, e.items);
    NoCutAppend(plain1, plain2);
    NewAppend(met1, met2, seen);
    hide New, NoCut, Paths;
  }

  lemma {:induction false} OneItem(i: Item, seen: set<string>, met: seq<string>)
    requires !i.Cut? && |met| <= 1 && (met != [] ==> met[0] !in seen)
    ensures CutsNothingIff(Expansion([i], seen + Paths(met)), seen, met, [i])
  {
  }

  lemma {:induction false} NothingMet(seen: set<string>)
    ensures CutsNothingIff(Expansion([], seen), seen, [], [])
  {
  }

  lemma {:induction false} ExpandCuts(h: Host, p: string, depth: nat, seen: set<string>)
    requires depth <= MAX_INCLUDE_DEPTH + 1
    ensures var fuel := MAX_INCLUDE_DEPTH + 1 - depth;
            CutsNothingIff(Expand(h, p, depth, seen), seen, Met(h, p, fuel), Inline(h, p, fuel))
    decreases MAX_INCLUDE_DEPTH + 1 - depth, 1
  {
    hide CutsNothingIff;
    var fuel := MAX_INCLUDE_DEPTH + 1 - depth;
    if fuel == 0 {
      CutShort(p, seen, []);
    } else if p in seen {
      SeenIsCut(p, seen, Met(h, p, fuel), Inline(h, p, fuel));
    } else {
      OneMet(p, seen);
      match h.list(p)
      case Unlistable =>
        OneItem(Unreadable(p), seen, [p]);
      case Entries(names) =>
        NamesCut(h, p, ConfigNames(names), depth, seen + {p});
        var e := ExpandNames(h, p, ConfigNames(names), depth, seen + {p});
        CutsAppend([], seen + {p}, e, seen, [p], [], MetNames(h, p, ConfigNames(names), fuel - 1),
                   InlineNames(h, p, ConfigNames(names), fuel - 1));
        assert [] + e.items == e.items;
        assert [] + InlineNames(h, p, ConfigNames(names), fuel - 1) == InlineNames(h, p, ConfigNames(names), fuel - 1);
      case NotADirectory =>
        match h.read(p)
        case Denied => OneItem(Unreadable(p), seen, [p]);
        case Missing => OneItem(Failed(p), seen, [p]);
        case Text(lines) =>
          OneItem(Opened(p), seen, [p]);
          LinesCut(h, p, lines, depth, seen + {p});
          CutsAppend([Opened(p)], seen + {p}, ExpandLines(h, p, lines, depth, seen + {p}), seen, [p], [Opened(p)],
                     MetLines(h, p, lines, fuel - 1), InlineLines(h, p, lines, fuel - 1));
    }
  }

  lemma {:induction false} OneMet(p: string, seen: set<string>)
    requires p !in seen
    ensures CutsNothingIff(Expansion([], seen + {p}), seen, [p], []) && Paths([p]) == {p}
    ensures [p] + [] == [p]
  {
  }

  lemma {:induction false} CutShort(p: string, seen: set<string>, met: seq<string>)
    ensures CutsNothingIff(Expansion([Cut(p)], seen), seen, met, [Cut(p)])
  {
    assert [Cut(p)][0].Cut?;
  }

  lemma {:induction false} SeenIsCut(p: string, seen: set<string>, met: seq<string>, plain: seq<Item>)
    requires p in seen && met != [] && met[0] == p
    ensures CutsNothingIff(Expansion([Cut(p)], seen), seen, met, plain)
  {
    assert [Cut(p)][0].Cut?;
    assert p in Paths(met);
  }

  lemma {:induction false} NamesCut(h: Host, p: string, names: seq<string>, depth: nat, seen: set<string>)
    requires depth <= MAX_INCLUDE_DEPTH
    ensures var fuel := MAX_INCLUDE_DEPTH - depth;
            CutsNothingIff(ExpandNames(h, p, names, depth, seen), seen, MetNames(h, p, names, fuel),
                           InlineNames(h, p, names, fuel))
    decreases MAX_INCLUDE_DEPTH + 1 - depth, 0, |names|
  {
    hide CutsNothingIff, Expand, Inline, Met;
    if names == [] {
      NothingMet(seen);
    } else {
      var fuel := MAX_INCLUDE_DEPTH - depth;
      var path := StripSlashes(p) + "/" + names[0];
      var first := Expand(h, path, depth + 1, seen);
      ExpandCuts(h, path, depth + 1, seen);
      NamesCut(h, p, names[1..], depth, first.seen);
      CutsAppend(first.items, first.seen, ExpandNames(h, p, names[1..], depth, first.seen), seen, Met(h, path, fuel),
                 Inline(h, path, fuel), MetNames(h, p, names[1..], fuel), InlineNames(h, p, names[1..], fuel));
    }
  }

  lemma {:induction false} LinesCut(h: Host, p: string, lines: seq<Line>, depth: nat, seen: set<string>)
    requires depth <= MAX_INCLUDE_DEPTH
    ensures var fuel := MAX_INCLUDE_DEPTH - depth;
            CutsNothingIff(ExpandLines(h, p, lines, depth, seen), seen, MetLines(h, p, lines, fuel),
                           InlineLines(h, p, lines, fuel))
    decreases MAX_INCLUDE_DEPTH + 1 - depth, 0, |lines|
  {
    hide CutsNothingIff, Expand, Inline, Met;
    NothingMet(seen);
    if lines != [] {
      var fuel := MAX_INCLUDE_DEPTH - depth;
      var met, plain := MetLines(h, p, lines[1..], fuel), InlineLines(h, p, lines[1..], fuel);
      match lines[0]
      case Blank =>
        LinesCut(h, p, lines[1..], depth, seen);
        assert [] + met == met && [] + plain == plain;
      case Include(target) =>
        var path := h.locate(p, target);
        var first := Expand(h, path, depth + 1, seen);
        ExpandCuts(h, path, depth + 1, seen);
        LinesCut(h, p, lines[1..], depth, first.seen);
        CutsAppend(first.items, first.seen, ExpandLines(h, p, lines[1..], depth, first.seen), seen,
                   Met(h, path, fuel), Inline(h, path, fuel), met, plain);
      case Section(name) => LineCuts(h, p, lines, depth, seen, Header(name), met, plain);
      case Pair(key, value) => LineCuts(h, p, lines, depth, seen, Setting(key, value), met, plain);
    }
  }

  lemma {:induction false} LineCuts(h: Host, p: string, lines: seq<Line>, depth: nat, seen: set<string>, i: Item,
                                    met: seq<string>, plain: seq<Item>)
    requires depth <= MAX_INCLUDE_DEPTH && lines != [] && !i.Cut?
    requires met == MetLines(h, p, lines[1..], MAX_INCLUDE_DEPTH - depth)
    requires plain == InlineLines(h, p, lines[1..], MAX_INCLUDE_DEPTH - depth)
    ensures CutsNothingIff(After([i], ExpandLines(h, p, lines[1..], depth, seen)), seen, [] + met, [i] + plain)
    decreases MAX_INCLUDE_DEPTH + 1 - depth, 0, |lines|, 0
  {
    LinesCut(h, p, lines[1..], depth, seen);
    OneItem(i, seen, []);
    assert seen + Paths([]) == seen;
    hide CutsNothingIff, ExpandLines, MetLines, InlineLines;
    CutsAppend([i], seen, ExpandLines(h, p, lines[1..], depth, seen), seen, [], [i], met, plain);
  }

  /** The reader cuts no include off if and only if plain inlining meets no path twice and ends within the
      depth limit; the text it reads is then exactly the inlined one. */
  lemma {:induction false} InliningIffNothingCut(h: Host, path: string)
    ensures var items, plain := Expand(h, path, 0, {}).items, Inline(h, path, MAX_INCLUDE_DEPTH + 1);
            && (NoCut(items) <==> Distinct(Met(h, path, MAX_INCLUDE_DEPTH + 1)) && NoCut(plain))
            && (NoCut(items) ==> forall fuel: nat | fuel > MAX_INCLUDE_DEPTH :: Inline(h, path, fuel) == items)
  {
    ExpandCuts(h, path, 0, {});
    hide Expand, Inline, Met, NoCut;
    if NoCut(Expand(h, path, 0, {}).items) {
      forall fuel: nat | fuel > MAX_INCLUDE_DEPTH ensures Inline(h, path, fuel) == Expand(h, path, 0, {}).items {
        ExpandInlines(h, path, 0, {}, fuel);
      }
    }
  }

  /** The text read is plain inlining, of some depth it is complete at, if and only if plain inlining meets no
      path twice and ends within the depth limit. */
  lemma {:induction false} ReadIsInliningIff(h: Host, path: string)
    ensures var items, limit := Expand(h, path, 0, {}).items, MAX_INCLUDE_DEPTH + 1;
            (exists fuel :: fuel >= limit && NoCut(Inline(h, path, fuel)) && items == Inline(h, path, fuel))
            <==> Distinct(Met(h, path, limit)) && NoCut(Inline(h, path, limit))
  {
    InliningIffNothingCut(h, path);
    hide Expand, Inline, Met, NoCut, Distinct;
    if Distinct(Met(h, path, MAX_INCLUDE_DEPTH + 1)) && NoCut(Inline(h, path, MAX_INCLUDE_DEPTH + 1)) {
      assert Inline(h, path, MAX_INCLUDE_DEPTH + 1) == Expand(h, path, 0, {}).items;
    }
  }

  lemma {:induction false} ErrorsGrow(items: seq<Item>, s: Findings)
    ensures s.errors <= Replay(items, s).errors
    ensures Replay(items, s).errors == s.errors ==> NoCut(items)
    decreases |items|
  {
    if items != [] {
      ErrorsGrow(items[1..], Apply(items[0], s));
      if Replay(items, s).errors == s.errors {
        assert Apply(items[0], s).errors == s.errors;
        NoCutAppend([items[0]], items[1..]);
        assert items == [items[0]] + items[1..];
      }
    }
  }

  /** When no include is cut off, whatever errors are reported, what was parsed is what plain inlining gives. */
  lemma {:induction false} NothingCutMeansInlined(h: Host, path: string, fuel: nat)
    requires fuel > MAX_INCLUDE_DEPTH && NoCut(Expand(h, path, 0, {}).items)
    ensures Replay(Expand(h, path, 0, {}).items, NOTHING) == Replay(Inline(h, path, fuel), NOTHING)
  {
    InliningIffNothingCut(h, path);
  }

  /** An empty list of errors shows that nothing was cut off. */
  lemma {:induction false} NoErrorsMeansInlined(h: Host, path: string, fuel: nat)
    requires fuel > MAX_INCLUDE_DEPTH
    requires Replay(Expand(h, path, 0, {}).items, NOTHING).errors == []
    ensures Replay(Expand(h, path, 0, {}).items, NOTHING) == Replay(Inline(h, path, fuel), NOTHING)
  {
    ErrorsGrow(Expand(h, path, 0, {}).items, NOTHING);
    NothingCutMeansInlined(h, path, fuel);
  }

  // A main file that includes "/a" before and after setting the key that "/a" sets.
  function Twice(): Host {
    Host(_ => NotADirectory,
         p => if p == "/m" then Text([Include("/a"), Pair("k", "1"), Include("/a")])
              else if p == "/a" then Text([Pair("k", "2")]) else Missing,
         (_, t) => t)
  }

  lemma {:induction false} NoHeaders(items: seq<Item>, start: string)
    requires forall i | 0 <= i < |items| :: !items[i].Header?
    ensures CurrentAt(items, start) == start
    decreases |items|
  {
    if items != [] {
      NoHeaders(items[..|items| - 1], start);
    }
  }

  lemma {:induction false} TwiceExpands()
    ensures Expand(Twice(), "/m", 0, {}).items ==
            [Opened("/m"), Opened("/a"), Setting("k", "2"), Setting("k", "1"), Cut("/a")]
  {
    var h := Twice();
    var once := [Pair("k", "2")];
    var tail := [Pair("k", "1"), Include("/a")];
    var last := [Include("/a")];
    assert once[1..] == [] && last[1..] == [] && tail[1..] == last;
    var a := Expand(h, "/a", 1, {"/m"});
    assert ExpandLines(h, "/a", once, 1, {"/m"} + {"/a"}) == Expansion([Setting("k", "2")], {"/m", "/a"});
    assert a == Expansion([Opened("/a"), Setting("k", "2")], {"/m", "/a"});
    assert ExpandLines(h, "/m", last, 0, a.seen) == Expansion([Cut("/a")], a.seen);
    assert ExpandLines(h, "/m", tail, 0, a.seen) == Expansion([Setting("k", "1"), Cut("/a")], a.seen);
    assert ([Include("/a")] + tail)[1..] == tail && [Include("/a")] + tail == h.read("/m").lines;
    assert {} + {"/m"} == {"/m"};
  }

  lemma {:induction false} TwiceInlines()
    ensures Inline(Twice(), "/m", MAX_INCLUDE_DEPTH + 1) ==
            [Opened("/m"), Opened("/a"), Setting("k", "2"), Setting("k", "1"), Opened("/a"), Setting("k", "2")]
  {
    var h := Twice();
    var once := [Pair("k", "2")];
    var tail := [Pair("k", "1"), Include("/a")];
    var last := [Include("/a")];
    assert once[1..] == [] && last[1..] == [] && tail[1..] == last;
    assert ([Include("/a")] + tail)[1..] == tail && [Include("/a")] + tail == h.read("/m").lines;
    var b := Inline(h, "/a", MAX_INCLUDE_DEPTH);
    assert InlineLines(h, "/a", once, MAX_INCLUDE_DEPTH - 1) == [Setting("k", "2")];
    assert b == [Opened("/a"), Setting("k", "2")];
    assert InlineLines(h, "/m", last, MAX_INCLUDE_DEPTH) == b;
    assert InlineLines(h, "/m", tail, MAX_INCLUDE_DEPTH) == [Setting("k", "1")] + b;
  }

  // The value "1" given after "2" is the last one.
  lemma {:induction false} OneIsLast(items: seq<Item>)
    requires items == [Opened("/m"), Opened("/a"), Setting("k", "2"), Setting("k", "1"), Cut("/a")]
    ensures Lookup(Replay(items, NOTHING).sections, "default", "k") == Some("1")
  {
    LastValueWins(items, "default", "k");
    hide Replay;
    NoHeaders(items[..4][..3], "default");
    assert items[..4][3] == Setting("k", "1");
    assert LastValue(items[..4], "default", "default", "k") == Some("1");
  }

  // The value "2" of the second inclusion is the last one.
  lemma {:induction false} TwoIsLast(items: seq<Item>)
    requires items ==
             [Opened("/m"), Opened("/a"), Setting("k", "2"), Setting("k", "1"), Opened("/a"), Setting("k", "2")]
    ensures Lookup(Replay(items, NOTHING).sections, "default", "k") == Some("2")
  {
    LastValueWins(items, "default", "k");
    hide Replay;
    NoHeaders(items[..5], "default");
    assert items[5] == Setting("k", "2");
  }

  /** A second include of the same file is dropped, so an earlier value can survive that plain inlining
      would overwrite. */
  lemma {:induction false} SecondIncludeDropped()
    ensures Expand(Twice(), "/m", 0, {}).items ==
            [Opened("/m"), Opened("/a"), Setting("k", "2"), Setting("k", "1"), Cut("/a")]
    ensures Inline(Twice(), "/m", MAX_INCLUDE_DEPTH + 1) ==
            [Opened("/m"), Opened("/a"), Setting("k", "2"), Setting("k", "1"), Opened("/a"), Setting("k", "2")]
    ensures Lookup(Replay(Expand(Twice(), "/m", 0, {}).items, NOTHING).sections, "default", "k") == Some("1")
    ensures Lookup(Replay(Inline(Twice(), "/m", MAX_INCLUDE_DEPTH + 1), NOTHING).sections, "default", "k") == Some("2")
  {
    TwiceExpands();
    TwiceInlines();
    hide Expand, Inline, Replay, Lookup;
    OneIsLast(Expand(Twice(), "/m", 0, {}).items);
    TwoIsLast(Inline(Twice(), "/m", MAX_INCLUDE_DEPTH + 1));
  }

  // ---- Directory order ----

  // The same files, the directories listed in another order.
  ghost predicate Relisted(a: Host, b: Host) {
    && (forall p :: a.read(p) == b.read(p))
    && (forall p, t :: a.locate(p, t) == b.locate(p, t))
    && (forall p :: match a.list(p)
                    case Entries(names) => b.list(p).Entries? && multiset(b.list(p).names) == multiset(names)
                    case other => b.list(p) == other)
  }

  /** The order in which the system lists a directory does not matter. */
  lemma {:induction false} ListingOrderForgotten(a: Host, b: Host, p: string, depth: nat, seen: set<string>)
    requires Relisted(a, b) && depth <= MAX_INCLUDE_DEPTH + 1
    ensures Expand(a, p, depth, seen) == Expand(b, p, depth, seen)
    decreases MAX_INCLUDE_DEPTH + 1 - depth, 1
  {
    if depth <= MAX_INCLUDE_DEPTH && p !in seen {
      match a.list(p)
      case Unlistable =>
      case Entries(names) =>
        Sorting.OrderForgotten(names, b.list(p).names);
        NamesForgotten(a, b, p, ConfigNames(names), depth, seen + {p});
      case NotADirectory =>
        if a.read(p).Text? {
          LinesForgotten(a, b, p, a.read(p).lines, depth, seen + {p});
        }
    }
  }

  lemma {:induction false} NamesForgotten(a: Host, b: Host, p: string, names: seq<string>, depth: nat,
                                          seen: set<string>)
    requires Relisted(a, b) && depth <= MAX_INCLUDE_DEPTH
    ensures ExpandNames(a, p, names, depth, seen) == ExpandNames(b, p, names, depth, seen)
    decreases MAX_INCLUDE_DEPTH + 1 - depth, 0, |names|
  {
    if names != [] {
      var path := StripSlashes(p) + "/" + names[0];
      ListingOrderForgotten(a, b, path, depth + 1, seen);
      NamesForgotten(a, b, p, names[1..], depth, Expand(a, path, depth + 1, seen).seen);
    }
  }

  lemma {:induction false} LinesForgotten(a: Host, b: Host, p: string, lines: seq<Line>, depth: nat, seen: set<string>)
    requires Relisted(a, b) && depth <= MAX_INCLUDE_DEPTH
    ensures ExpandLines(a, p, lines, depth, seen) == ExpandLines(b, p, lines, depth, seen)
    decreases MAX_INCLUDE_DEPTH + 1 - depth, 0, |lines|
  {
    if lines != [] {
      hide Expand;
      match lines[0]
      case Include(target) =>
        var path := a.locate(p, target);
        assert b.locate(p, target) == path;
        ListingOrderForgotten(a, b, path, depth + 1, seen);
        LinesForgotten(a, b, p, lines[1..], depth, Expand(a, path, depth + 1, seen).seen);
      case _ => LinesForgotten(a, b, p, lines[1..], depth, seen);
    }
  }
}
