/**
  The resolver where a system booted from the tree would find nothing.

  The resolver only asks whether a name is a link, so it goes through names that are missing or no
  directories, and it drops a "/" at the end of a text, which the kernel holds to a directory.  A ".." behind
  such a name brings it back to nodes that exist.  Where it takes no ".", ".." or last "/" there, and no empty
  text, its answer is the booted one.
 */
module PathMissing {
  import opened HostTree
  import opened PathResolver

  ghost predicate NoDots(cs: seq<string>) {
    forall i | 0 <= i < |cs| :: cs[i] != "." && cs[i] != ".."
  }

  // No link has an empty target, or one with a "." or ".." in it or a "/" at its end.
  ghost predicate PlainLinks(fs: Tree) {
    forall p | p in fs && fs[p].Link? :: fs[p].target != "" && NoDots(Steps(fs[p].target))
  }

  // What the resolver's answer says of the booted lookup.
  function Answer(fs: Tree, r: Phys, out: Outcome): Lookup {
    match out
    case LinkLoop => TooManyLinks
    case Resolved(d, l) => if r + d in fs then At(r + d, l) else Absent
  }

  lemma {:induction false} NothingBehind(fs: Tree, p: Phys, cs: seq<string>)
    requires WellFormed(fs) && p !in fs
    ensures p + cs !in fs
  {
    if cs == [] {
      assert p + cs == p;
    } else {
      NothingBelow(fs, p, cs);
    }
  }

  predicate IsDirectory(fs: Tree, p: Phys) {
    p in fs && fs[p].Dir?
  }

  predicate IsDot(part: string) {
    part == "." || part == ".."
  }

  // The turn, a last "/" of a link's text kept as the kernel keeps it.
  function Written(h: Host, s: State): (t: Step)
    ensures t.Go? ==> t.next.left < s.left || (t.next.left == s.left && |t.next.pending| < |s.pending|)
    ensures t.Finished? <==> s.pending == []
  {
    match Turn(h, s)
    case Go(next) =>
      if IsDot(s.pending[0]) || !IsLink(h, Candidate(h, s.done, s.pending[0])) then Go(next)
      else
        var text := ReadLink(h, Candidate(h, s.done, s.pending[0]));
        Go(next.(pending := Steps(text) + s.pending[1..]))
    case other => other
  }

  // The next turn takes a ".", a ".." or a last "/" where there is no directory, or a link to nothing.
  ghost predicate SlipsHere(h: Host, r: Phys, s: State) {
    s.pending != [] &&
    if IsDot(s.pending[0]) then !IsDirectory(h.fs, r + s.done)
    else
      var node := r + s.done + [s.pending[0]];
      node in h.fs && h.fs[node].Link? && h.fs[node].target == ""
  }

  // Some turn of the run does.
  ghost predicate Slips(h: Host, r: Phys, s: State)
    decreases s.left, |s.pending|
  {
    SlipsHere(h, r, s) || match Written(h, s) case Go(next) => Slips(h, r, next) case _ => false
  }

  // To the resolver a "." more makes no difference.
  lemma {:induction false} DotIsDropped(h: Host, s: State, a: seq<string>, b: seq<string>)
    ensures Resolve(h, s.(pending := a + (["."] + b))) == Resolve(h, s.(pending := a + b))
  {
    var before := s.(pending := a);
    ResolveAppend(h, before, ["."] + b);
    ResolveAppend(h, before, b);
    var out := Resolve(h, before);
    if out.Resolved? {
      var at := State(out.done, ["."] + b, out.left);
      assert at.pending[1..] == b;
      assert Turn(h, at) == Go(State(out.done, b, out.left));
      hide Turn;
    }
  }

  lemma {:induction false} StepsAreComponents(h: Host, s: State, text: string, rest: seq<string>)
    ensures Resolve(h, s.(pending := Steps(text) + rest)) == Resolve(h, s.(pending := Components(text) + rest))
  {
    hide Components, Resolve;
    var cs := Components(text);
    DotIsDropped(h, s, cs, rest);
    assert (cs + ["."]) + rest == cs + (["."] + rest) && cs + [] == cs;
  }

  lemma {:induction false} SlipsUnfolds(h: Host, r: Phys, s: State)
    ensures Slips(h, r, s) <==> SlipsHere(h, r, s) || (Written(h, s).Go? && Slips(h, r, Written(h, s).next))
    ensures Resolve(h, s) == match Written(h, s)
                             case Finished => Resolved(s.done, s.left)
                             case Exhausted => LinkLoop
                             case Go(next) => Resolve(h, next)
  {
    hide SlipsHere, IsLink, ReadLink, Components, Steps, Join;
    if Turn(h, s).Go? && !IsDot(s.pending[0]) && IsLink(h, Candidate(h, s.done, s.pending[0])) {
      StepsAreComponents(h, Turn(h, s).next, ReadLink(h, Candidate(h, s.done, s.pending[0])), s.pending[1..]);
    }
  }

  // Behind a name that does not exist every component is taken for a name, unless the run slips.
  lemma {:induction false} MissingStays(h: Host, r: Phys, s: State)
    requires Rooted(h, r) && Inv(h, r, s) && !Slips(h, r, s) && r + s.done !in h.fs
    ensures Resolve(h, s) == Resolved(s.done + s.pending, s.left) && r + (s.done + s.pending) !in h.fs
    decreases |s.pending|
  {
    hide IsLink, LinkFree, Confined, Direct, Components, Steps, Join, Visited, Slips, Resolve;
    SlipsUnfolds(h, r, s);
    NothingBehind(h.fs, r + s.done, s.pending);
    assert r + (s.done + s.pending) == (r + s.done) + s.pending;
    if s.pending == [] {
      assert s.done + [] == s.done;
    } else {
      var part := s.pending[0];
      assert !IsDot(part) && IsName(part);
      ProbeSees(h, r, s.done, part);
      assert r + s.done + [part] !in h.fs;
      DoneGrows(h, r, s.done, part);
      var next := State(s.done + [part], s.pending[1..], s.left);
      assert Turn(h, s) == Go(next) && Written(h, s) == Go(next);
      assert r + next.done == (r + s.done) + [part];
      MissingStays(h, r, next);
      assert next.done + next.pending == s.done + s.pending;
    }
  }

  // The booted lookup of one name.
  lemma {:induction false} BootedTurn(h: Host, r: Phys, s: State)
    requires s.pending != [] && !IsDot(s.pending[0]) && r + s.done in h.fs
    ensures var node := r + s.done + [s.pending[0]];
            && (!h.fs[r + s.done].Dir? || node !in h.fs ==> Booted(h, r, s) == Absent)
            && (h.fs[r + s.done].Dir? && node in h.fs && h.fs[node].Link? ==>
                  var t := h.fs[node].target;
                  && (t == "" ==> Booted(h, r, s) == Absent)
                  && (t != "" && s.left == 0 ==> Booted(h, r, s) == TooManyLinks)
                  && (t != "" && s.left > 0 ==>
                        Booted(h, r, s) == Booted(h, r, State(if FromTop(t) then [] else s.done,
                                                              Steps(t) + s.pending[1..], s.left - 1))))
            && (h.fs[r + s.done].Dir? && node in h.fs && !h.fs[node].Link? ==>
                  Booted(h, r, s) == Booted(h, r, State(s.done + [s.pending[0]], s.pending[1..], s.left)))
  {
    hide Components, Steps;
    assert r + [] == r;
    assert r + (s.done + [s.pending[0]]) == r + s.done + [s.pending[0]];
  }

  // Of a "." or "..": it stays among the directories.
  lemma {:induction false} BootedDot(h: Host, r: Phys, s: State)
    requires WellFormed(h.fs) && s.pending != [] && IsDot(s.pending[0]) && r + s.done in h.fs && r in h.fs
    ensures !IsDirectory(h.fs, r + s.done) ==> Booted(h, r, s) == Absent
    ensures Written(h, s).Go? && Written(h, s) == Turn(h, s)
    ensures IsDirectory(h.fs, r + s.done) ==>
              Booted(h, r, s) == Booted(h, r, Written(h, s).next) && r + Written(h, s).next.done in h.fs
  {
    if s.done == [] {
      assert r + s.done == r;
      assert Parent(r, r) == r;
    } else {
      var up := s.done[..|s.done| - 1];
      assert r + s.done == (r + up) + [s.done[|s.done| - 1]];
      assert Parent(r, r + s.done) == r + up;
    }
  }

  lemma {:induction false} WrittenKeeps(h: Host, r: Phys, s: State)
    requires Rooted(h, r) && Inv(h, r, s)
    ensures Written(h, s).Go? ==> Inv(h, r, Written(h, s).next)
  {
    hide IsLink, ReadLink, Rooted, LinkFree, Confined, Direct, Candidate;
    TurnKeeps(h, r, s);
  }

  /** On every tree: a booted system finds nothing where the run takes a ".", a ".." or a last "/" behind what is no
      directory, or a link with no target; everywhere else its lookup is exactly the resolver's answer, and finds
      nothing exactly where that names no node. */
  lemma {:induction false} AnswersForBooted(h: Host, r: Phys, s: State)
    requires Rooted(h, r) && Inv(h, r, s) && r + s.done in h.fs
    ensures Booted(h, r, s) == if Slips(h, r, s) then Absent else Answer(h.fs, r, Resolve(h, s))
    decreases s.left, |s.pending|
  {
    hide IsLink, LinkFree, Confined, Direct, Components, Steps, Join, Visited, Walk, Slips, Resolve, Written;
    SlipsUnfolds(h, r, s);
    if s.pending == [] {
      EmptyWalk(h, r, s);
    } else {
      var part := s.pending[0];
      assert IsName(part);
      WrittenKeeps(h, r, s);
      var next := Written(h, s);
      if IsDot(part) {
        BootedDot(h, r, s);
        if IsDirectory(h.fs, r + s.done) {
          AnswersForBooted(h, r, next.next);
        }
      } else {
        NameAnswers(h, r, s);
        var node := r + s.done + [part];
        if node in h.fs && next.Go? && !SlipsHere(h, r, s) {
          AnswersForBooted(h, r, next.next);
        } else if node !in h.fs && !Slips(h, r, s) {
          MissingStays(h, r, next.next);
        }
      }
    }
  }

  // One name: missing, a link, or anything else.
  lemma {:induction false} NameAnswers(h: Host, r: Phys, s: State)
    requires Rooted(h, r) && Inv(h, r, s) && r + s.done in h.fs && s.pending != [] && !IsDot(s.pending[0])
    ensures var node, t := r + s.done + [s.pending[0]], Written(h, s);
            && (SlipsHere(h, r, s) ==> Booted(h, r, s) == Absent)
            && (node !in h.fs ==> Booted(h, r, s) == Absent && t.Go? && r + t.next.done !in h.fs)
            && (node in h.fs && !SlipsHere(h, r, s) && t.Go? ==>
                  Booted(h, r, s) == Booted(h, r, t.next) && r + t.next.done in h.fs)
            && (t.Exhausted? && !SlipsHere(h, r, s) ==> Booted(h, r, s) == TooManyLinks)
            && (t.Exhausted? ==> node in h.fs)
  {
    hide IsLink, LinkFree, Confined, Direct, Components, Steps, Join, Visited, Walk;
    var part := s.pending[0];
    assert IsName(part);
    var node := r + s.done + [part];
    ProbeSees(h, r, s.done, part);
    BootedTurn(h, r, s);
    assert r + (s.done + [part]) == node;
    assert r + [] == r;
    RootExists(h, r);
    ParentIsDir(h.fs, r + s.done, part);
  }

  lemma {:induction false} RootExists(h: Host, r: Phys)
    requires Rooted(h, r)
    ensures r in h.fs && h.fs[r].Dir? && WellFormed(h.fs)
  {
  }

  lemma {:induction false} ParentIsDir(fs: Tree, p: Phys, c: string)
    requires WellFormed(fs) && p in fs
    ensures p + [c] in fs ==> fs[p].Dir?
  {
  }

  lemma {:induction false} EmptyWalk(h: Host, r: Phys, s: State)
    requires s.pending == []
    ensures Booted(h, r, s) == At(r + s.done, s.left)
  {
  }

  lemma {:induction false} LinkIsPlain(fs: Tree, p: Phys)
    requires PlainLinks(fs) && p in fs && fs[p].Link?
    ensures fs[p].target != "" && NoDots(Steps(fs[p].target))
  {
  }

  lemma {:induction false} NoDotsAppend(a: seq<string>, b: seq<string>)
    requires NoDots(a) && NoDots(b)
    ensures NoDots(a + b)
  {
  }

  // Where no text holds a "." or ".." or ends in "/", no run slips.
  lemma {:induction false} PlainNeverSlips(h: Host, r: Phys, s: State)
    requires Rooted(h, r) && Inv(h, r, s) && NoDots(s.pending) && PlainLinks(h.fs)
    ensures !Slips(h, r, s)
    decreases s.left, |s.pending|
  {
    hide IsLink, LinkFree, Confined, Direct, Components, Steps, Join, Visited, Walk, Slips, Resolve, PlainLinks;
    SlipsUnfolds(h, r, s);
    if s.pending != [] {
      var part := s.pending[0];
      assert IsName(part) && !IsDot(part);
      var node := r + s.done + [part];
      ProbeSees(h, r, s.done, part);
      WrittenKeeps(h, r, s);
      if node in h.fs && h.fs[node].Link? {
        LinkIsPlain(h.fs, node);
        NoDotsAppend(Steps(h.fs[node].target), s.pending[1..]);
      }
      if Written(h, s).Go? {
        PlainNeverSlips(h, r, Written(h, s).next);
      }
    }
  }

  // The booted system's lookup of a text, by a process in its root directory.
  function Stat(h: Host, r: Phys, path: string, maxLinks: nat): Lookup {
    if path == "" then Absent else Walk(h.fs, r, r, Steps(path), true, maxLinks)
  }

  // The state the booted lookup of a text starts in.
  function Asked(path: string, maxLinks: nat): State {
    State([], Steps(path), maxLinks)
  }

  /** Of a whole call: the booted lookup is exactly the resolver's answer, unless the path is empty or the run
      slips; it then finds nothing.  It never slips where neither the path nor a link's text holds a "." or "..",
      ends in "/" or is empty. */
  lemma {:induction false} StatIsAnswer(h: Host, r: Phys, path: string, maxLinks: nat)
    requires Rooted(h, r)
    ensures Stat(h, r, path, maxLinks) ==
            if path == "" || Slips(h, r, Asked(path, maxLinks)) then Absent
            else Answer(h.fs, r, Resolve(h, Start(path, maxLinks)))
    ensures NoDots(Steps(path)) && PlainLinks(h.fs) ==> !Slips(h, r, Asked(path, maxLinks))
  {
    hide Components, Steps, Walk, Resolve, PlainLinks, Slips;
    assert r + [] == r;
    NothingDone(h, r);
    RootExists(h, r);
    AnswersForBooted(h, r, Asked(path, maxLinks));
    StepsAreComponents(h, Asked(path, maxLinks), path, []);
    assert Steps(path) + [] == Steps(path) && Components(path) + [] == Components(path);
    if NoDots(Steps(path)) && PlainLinks(h.fs) {
      PlainNeverSlips(h, r, Asked(path, maxLinks));
    }
  }

  /** What a call resolves to exists if and only if the booted lookup finds it, unless the path is empty or the
      run slips and comes to a node all the same. */
  lemma {:induction false} ExistsIffFound(h: Host, r: Phys, path: string, maxLinks: nat)
    requires Rooted(h, r) && Resolve(h, Start(path, maxLinks)).Resolved?
    ensures var out, booted := Resolve(h, Start(path, maxLinks)), Stat(h, r, path, maxLinks);
            && ((r + out.done in h.fs <==> booted.At?)
                <==> !((path == "" || Slips(h, r, Asked(path, maxLinks))) && r + out.done in h.fs))
            && (booted.At? ==> booted.path == r + out.done)
  {
    hide Stat, Resolve, Slips, Rooted;
    StatIsAnswer(h, r, path, maxLinks);
  }

  // ---- Where they part ----

  // A tree with one file, and a link to it whose text ends in "/".
  function OneFile(): Host {
    Host(map[[] := Dir, ["x"] := File, ["l"] := Link("x/")], "")
  }

  lemma {:induction false} OneFileRooted()
    ensures Rooted(OneFile(), [])
  {
    var fs := OneFile().fs;
    forall p: Phys, c: string | p + [c] in fs ensures p in fs && fs[p].Dir? {
      assert |p + [c]| == 1;
      assert p == [];
    }
  }

  lemma {:induction false} NamesOfOneFile(part: string, rest: seq<string>, left: nat)
    requires IsEntry(part) && part != "l"
    ensures Turn(OneFile(), State([], [part] + rest, left)) == Go(State([part], rest, left))
  {
    var h := OneFile();
    OneFileRooted();
    hide IsLink, Rooted, Confined, Direct, Join;
    NothingDone(h, []);
    ProbeSees(h, [], [], part);
    assert [part][0] == part;
    assert !IsLink(h, Candidate(h, [], part));
    assert ([part] + rest)[1..] == rest && [] + [part] == [part];
  }

  lemma {:induction false} LinkOfOneFile(left: nat)
    requires left > 0
    ensures Turn(OneFile(), State([], ["l"], left)) == Go(State([], Components("x/"), left - 1))
  {
    var h := OneFile();
    OneFileRooted();
    hide IsLink, Rooted, Confined, Direct, Join, Components;
    NothingDone(h, []);
    ProbeSees(h, [], [], "l");
    assert [] + [] + ["l"] == ["l"] && ["l"][1..] == [];
    assert Components("x/") + [] == Components("x/");
  }

  lemma {:induction false} OneTurn(h: Host, s: State, next: State)
    requires Turn(h, s) == Go(next)
    ensures Resolve(h, s) == Resolve(h, next)
  {
    hide Turn;
  }

  lemma {:induction false} UpTurn(h: Host, part: string, rest: seq<string>, left: nat)
    ensures Turn(h, State([part], [".."] + rest, left)) == Go(State([], rest, left))
  {
    assert ([".."] + rest)[1..] == rest && [part][..0] == [];
  }

  lemma {:induction false} NoTurn(h: Host, done: seq<string>, left: nat)
    ensures Resolve(h, State(done, [], left)) == Resolved(done, left)
  {
  }

  lemma {:induction false} FileResolves(left: nat)
    ensures Resolve(OneFile(), State([], ["x"], left)) == Resolved(["x"], left)
  {
    hide Turn, Resolve, OneFile;
    NamesOfOneFile("x", [], left);
    NoTurn(OneFile(), ["x"], left);
    assert ["x"] + [] == ["x"];
    OneTurn(OneFile(), State([], ["x"], left), State(["x"], [], left));
  }

  lemma {:induction false} OneFileResolves(left: nat)
    ensures Resolve(OneFile(), State([], ["m", "..", "x"], left)) == Resolved(["x"], left)
  {
    var h := OneFile();
    hide Turn, Resolve, OneFile;
    NamesOfOneFile("m", ["..", "x"], left);
    UpTurn(h, "m", ["x"], left);
    FileResolves(left);
    assert ["m"] + ["..", "x"] == ["m", "..", "x"] && [".."] + ["x"] == ["..", "x"];
    OneTurn(h, State([], ["m", "..", "x"], left), State(["m"], ["..", "x"], left));
    OneTurn(h, State(["m"], ["..", "x"], left), State([], ["x"], left));
  }

  lemma {:induction false} OneFileBooted(left: nat)
    ensures Walk(OneFile().fs, [], [], ["m", "..", "x"], true, left) == Absent && ["x"] in OneFile().fs
  {
    assert [] + ["m"] == ["m"] && ["m"][0] != ["x"][0] && ["m"][0] != ["l"][0];
  }

  /** ".." behind a missing name: a booted system finds nothing at "/m/../x", the resolver finds the file. */
  lemma {:induction false} MissingNameIsSkipped(maxLinks: nat)
    ensures var h := OneFile();
            && Rooted(h, []) && ["x"] in h.fs
            && Stat(h, [], "/m/../x", maxLinks) == Absent
            && Resolve(h, Start("/m/../x", maxLinks)) == Resolved(["x"], maxLinks)
  {
    OneFileRooted();
    PathComponents();
    hide OneFile, Rooted, Walk, Resolve, Components;
    assert ["m", "..", "x"] + [] == ["m", "..", "x"];
    OneFileResolves(maxLinks);
    OneFileBooted(maxLinks);
  }

  lemma {:induction false} FileIsNoDirectory(left: nat)
    ensures Walk(OneFile().fs, [], [], ["x", "."], true, left) == Absent && ["x"] in OneFile().fs
    ensures left > 0 ==> Walk(OneFile().fs, [], [], ["l"], true, left)
                         == Walk(OneFile().fs, [], [], Steps("x/"), true, left - 1)
  {
    hide Steps;
    assert [] + ["x"] == ["x"] && ["x", "."][1..] == ["."] && [] + ["l"] == ["l"] && ["l"][1..] == [];
    assert ["l"][0] != ["x"][0];
    assert Steps("x/") + [] == Steps("x/");
  }

  /** A last "/" after a file: a booted system finds nothing at "/x/", nor at a link whose text is "x/"; the
      resolver finds the file. */
  lemma {:induction false} LastSlashIsDropped(maxLinks: nat)
    ensures var h := OneFile();
            && Rooted(h, []) && ["x"] in h.fs
            && Stat(h, [], "/x/", maxLinks) == Absent
            && Resolve(h, Start("/x/", maxLinks)) == Resolved(["x"], maxLinks)
            && (maxLinks > 0 ==>
                  && Stat(h, [], "/l", maxLinks) == Absent
                  && Resolve(h, Start("/l", maxLinks)) == Resolved(["x"], maxLinks - 1))
  {
    OneFileRooted();
    SlashComponents();
    hide OneFile, Rooted, Walk, Resolve, Components, Steps, Turn;
    FileResolves(maxLinks);
    FileIsNoDirectory(maxLinks);
    if maxLinks > 0 {
      LinkOfOneFile(maxLinks);
      OneTurn(OneFile(), State([], ["l"], maxLinks), State([], ["x"], maxLinks - 1));
      FileResolves(maxLinks - 1);
      FileIsNoDirectory(maxLinks - 1);
    }
  }

  lemma {:induction false} SlashComponents()
    ensures Components("/x/") == ["x"] && Steps("/x/") == ["x", "."]
    ensures Components("x/") == ["x"] && Steps("x/") == ["x", "."]
    ensures Components("/l") == ["l"] && Steps("/l") == ["l"]
  {
    assert "/x/"[1..] == "x/" && NextSlash("x/") == 1 && "x/"[..1] == "x" && "x/"[1..] == "/" && "/"[1..] == "";
    assert "/l"[1..] == "l" && NextSlash("l") == 1 && "l"[..1] == "l" && "l"[1..] == "";
    assert Components("/") == [] && Components("x/") == ["x"];
    assert ["x"] + ["."] == ["x", "."] && ["l"] + [] == ["l"];
  }

  lemma {:induction false} PathComponents()
    ensures Components("/m/../x") == ["m", "..", "x"]
  {
    assert "/m/../x"[1..] == "m/../x" && "m/../x"[1..] == "/../x" && "/../x"[1..] == "../x";
    assert "../x"[2..] == "/x" && "../x"[..2] == ".." && "/x"[1..] == "x" && "m/../x"[..1] == "m";
    assert NextSlash("m/../x") == 1 && NextSlash("x") == 1 && "x"[..1] == "x" && "x"[1..] == "";
    assert "../x"[1..] == "./x" && "./x"[1..] == "/x" && NextSlash("../x") == 2;
    assert Components("x") == ["x"];
    assert Components("../x") == ["..", "x"];
  }
}
