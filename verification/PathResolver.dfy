/**
  `resolve_in_root`: symlink resolution confined to a scanned tree.

  The loop works on strings and asks the operating system about one candidate at a time; the operating
  system resolves that candidate itself, from its own "/".  What is proved is that it never gets the
  chance to leave the tree, and that wherever a system booted from the tree finds a node, the answer is that
  node.  Where such a system finds nothing, PathMissing says what the answer is.
 */
module PathResolver {
  import opened HostTree

  datatype Host = Host(fs: Tree, root: string)

  // `left` is what remains of the link budget.
  datatype Outcome = Resolved(done: seq<string>, left: nat) | LinkLoop

  function Lstat(h: Host, path: string): Lookup {
    Walk(h.fs, [], [], Steps(path), false, KERNEL_LINKS)
  }

  // os.path.islink and os.readlink
  predicate IsLink(h: Host, path: string) {
    var at := Lstat(h, path);
    at.At? && at.path in h.fs && h.fs[at.path].Link?
  }

  function ReadLink(h: Host, path: string): string
    requires IsLink(h, path)
  {
    h.fs[Lstat(h, path).path].target
  }

  // target.startswith("/")
  predicate Absolute(target: string) {
    target != "" && target[0] == '/'
  }

  function Candidate(h: Host, done: seq<string>, part: string): string {
    h.root + "/" + Join(done + [part])
  }

  // The variables of the loop: the path so far, the components still to look up, the links still allowed.
  datatype State = State(done: seq<string>, pending: seq<string>, left: nat)

  datatype Step = Go(next: State) | Finished | Exhausted

  // One turn of the loop.
  function Turn(h: Host, s: State): (t: Step)
    ensures t.Go? ==> t.next.left < s.left || (t.next.left == s.left && |t.next.pending| < |s.pending|)
    ensures t.Finished? <==> s.pending == []
  {
    if s.pending == [] then Finished
    else
      var part, rest := s.pending[0], s.pending[1..];
      if part == "." then Go(s.(pending := rest))
      else if part == ".." then
        Go(s.(done := if s.done == [] then [] else s.done[..|s.done| - 1], pending := rest))
      else
        var candidate := Candidate(h, s.done, part);
        if !IsLink(h, candidate) then Go(s.(done := s.done + [part], pending := rest))
        else if s.left == 0 then Exhausted
        else
          var target := ReadLink(h, candidate);
          Go(State(if Absolute(target) then [] else s.done, Components(target) + rest, s.left - 1))
  }

  // What the turn hands to the operating system.
  function Probe(h: Host, s: State): seq<string> {
    if s.pending == [] || s.pending[0] == "." || s.pending[0] == ".." then []
    else [Candidate(h, s.done, s.pending[0])]
  }

  function Resolve(h: Host, s: State): Outcome
    decreases s.left, |s.pending|
  {
    match Turn(h, s)
    case Finished => Resolved(s.done, s.left)
    case Exhausted => LinkLoop
    case Go(next) => Resolve(h, next)
  }

  // Everything the run hands to the operating system, in order.
  function Probes(h: Host, s: State): seq<string>
    decreases s.left, |s.pending|, 1
  {
    Probe(h, s) + AfterTurn(h, s)
  }

  function AfterTurn(h: Host, s: State): seq<string>
    decreases s.left, |s.pending|, 0
  {
    match Turn(h, s) case Go(next) => Probes(h, next) case _ => []
  }

  function Start(path: string, maxLinks: nat): State {
    State([], Components(path), maxLinks)
  }

  datatype Result = Path(path: string) | Eloop

  /** The loop of the resolver; `probes` records what it asks the operating system. */
  method ResolveInRoot(h: Host, path: string, maxLinks: nat) returns (r: Result, ghost probes: seq<string>)
    ensures r == match Resolve(h, Start(path, maxLinks))
                 case Resolved(done, _) => Path("/" + Join(done))
                 case LinkLoop => Eloop
    ensures probes == Probes(h, Start(path, maxLinks))
  {
    hide IsLink, Components, Join, Resolve, Probes, AfterTurn;
    var pending := Components(path);
    var done: seq<string> := [];
    var links := 0;
    probes := [];
    while pending != []
      invariant links <= maxLinks
      invariant Resolve(h, State(done, pending, maxLinks - links)) == Resolve(h, Start(path, maxLinks))
      invariant probes + Probes(h, State(done, pending, maxLinks - links)) == Probes(h, Start(path, maxLinks))
      decreases maxLinks - links, |pending|
    {
      ghost var s := State(done, pending, maxLinks - links);
      TurnUnfolds(h, s, probes);
      var part := pending[0];
      pending := pending[1..];
      if part == "." {
        continue;
      }
      if part == ".." {
        if done != [] {
          done := done[..|done| - 1];
        }
        continue;
      }
      var candidate := h.root + "/" + Join(done + [part]);
      probes := probes + [candidate];
      if IsLink(h, candidate) {
        links := links + 1;
        if links > maxLinks {
          return Eloop, probes;
        }
        var target := ReadLink(h, candidate);
        if Absolute(target) {
          done := [];
        }
        pending := Components(target) + pending;
        continue;
      }
      done := done + [part];
    }
    NothingLeft(h, State(done, pending, maxLinks - links), probes);
    r := Path("/" + Join(done));
  }

  lemma {:induction false} NothingLeft(h: Host, s: State, probes: seq<string>)
    requires s.pending == []
    ensures Resolve(h, s) == Resolved(s.done, s.left) && probes + Probes(h, s) == probes
  {
  }

  // What a run still does, by its next turn.
  lemma {:induction false} TurnUnfolds(h: Host, s: State, probes: seq<string>)
    ensures Turn(h, s).Go? ==> Resolve(h, s) == Resolve(h, Turn(h, s).next)
    ensures Turn(h, s).Exhausted? ==> Resolve(h, s) == LinkLoop
    ensures probes + Probes(h, s) ==
            probes + Probe(h, s) + match Turn(h, s) case Go(next) => Probes(h, next) case _ => []
    ensures probes + [] == probes
  {
    hide Turn, Probe;
  }

  // The operating system finds the root of the tree at the directory `r`.
  ghost predicate Rooted(h: Host, r: Phys) {
    && WellFormed(h.fs)
    && var at := Walk(h.fs, [], [], Components(h.root), true, KERNEL_LINKS);
    && at.At? && at.path == r && r in h.fs && h.fs[r].Dir?
  }

  // No prefix of `done`, looked up below the root, is a link.
  ghost predicate LinkFree(h: Host, r: Phys, done: seq<string>) {
    Entries(done) && forall q | q in h.fs && r < q <= r + done :: !h.fs[q].Link?
  }

  // What the operating system sees of the tree while looking `path` up: the way to the root, then
  // nothing but the tree.
  ghost predicate Confined(h: Host, r: Phys, path: string) {
    forall p | p in Visited(h.fs, [], [], Steps(path), false, KERNEL_LINKS) ::
      p in Visited(h.fs, [], [], Components(h.root), true, KERNEL_LINKS) || r <= p
  }

  // `path` is the root followed by entry names, no proper prefix of which is a link.
  ghost predicate Direct(h: Host, r: Phys, path: string) {
    exists cs ::
      && cs != [] && LinkFree(h, r, cs[..|cs| - 1]) && IsEntry(cs[|cs| - 1])
      && path == h.root + "/" + Join(cs)
  }

  lemma {:induction false} CandidateComponents(h: Host, done: seq<string>, part: string)
    requires Entries(done) && IsEntry(part)
    ensures Steps(Candidate(h, done, part)) == Components(h.root) + (done + [part])
  {
    var cs := done + [part];
    forall i | 0 <= i < |cs| ensures IsName(cs[i]) {
      assert i < |done| ==> IsEntry(done[i]);
    }
    hide Components, Join;
    ComponentsOfSlash(h.root, Join(cs));
    ComponentsOfJoin(cs);
    JoinEndsInName(cs);
    EndOfAppend(h.root + "/", Join(cs));
  }

  lemma {:induction false} JoinEndsInName(cs: seq<string>)
    requires cs != [] && forall i | 0 <= i < |cs| :: IsName(cs[i])
    ensures Join(cs) != "" && !EndsInSlash(Join(cs))
    decreases |cs|
  {
    if |cs| > 1 {
      JoinEndsInName(cs[1..]);
      EndOfAppend(cs[0] + "/", Join(cs[1..]));
    }
  }

  lemma {:induction false} EndOfAppend(a: string, b: string)
    requires b != ""
    ensures EndsInSlash(a + b) == EndsInSlash(b)
  {
  }

  lemma {:induction false} NoLinkAbove(h: Host, r: Phys, done: seq<string>, part: string)
    requires LinkFree(h, r, done) && IsEntry(part)
    ensures Entries(done + [part]) && NoLinkBetween(h.fs, r, r + (done + [part]))
  {
    var cs := done + [part];
    forall q | q in h.fs && r < q < r + cs ensures !h.fs[q].Link? {
      assert r + cs == (r + done) + [part];
      assert q <= r + done;
    }
  }

  // The system's lookup of a candidate ends at its node, and visits nothing but the way to the root and the tree.
  lemma {:induction false} CandidateWalk(h: Host, r: Phys, done: seq<string>, part: string)
    requires Rooted(h, r) && LinkFree(h, r, done) && IsEntry(part)
    ensures var candidate, node := Candidate(h, done, part), r + (done + [part]);
            && (if node in h.fs then Lstat(h, candidate).At? && Lstat(h, candidate).path == node
                else Lstat(h, candidate) == Absent)
            && Confined(h, r, candidate)
  {
    NoLinkAbove(h, r, done, part);
    CandidateComponents(h, done, part);
    hide Components, Steps, Join, Candidate, Walk, Visited, Entries, LinkFree;
    var cs := done + [part];
    WalkAppend(h.fs, [], [], Components(h.root), cs, false, KERNEL_LINKS);
    var left := Walk(h.fs, [], [], Components(h.root), true, KERNEL_LINKS).left;
    WalkDown(h.fs, [], r, cs, left);
  }

  lemma {:induction false} CandidateIsDirect(h: Host, r: Phys, done: seq<string>, part: string)
    requires LinkFree(h, r, done) && IsEntry(part)
    ensures Direct(h, r, Candidate(h, done, part))
  {
    hide Join, LinkFree;
    var cs := done + [part];
    assert cs[..|cs| - 1] == done && cs[|cs| - 1] == part;
  }

  lemma {:induction false} ProbeSees(h: Host, r: Phys, done: seq<string>, part: string)
    requires Rooted(h, r) && LinkFree(h, r, done) && IsEntry(part)
    ensures var candidate := Candidate(h, done, part);
            var node := r + done + [part];
            && (IsLink(h, candidate) <==> node in h.fs && h.fs[node].Link?)
            && (IsLink(h, candidate) ==> ReadLink(h, candidate) == h.fs[node].target)
            && Confined(h, r, candidate) && Direct(h, r, candidate)
  {
    hide Rooted, LinkFree, Lstat, Confined, Direct, Candidate;
    CandidateWalk(h, r, done, part);
    CandidateIsDirect(h, r, done, part);
    assert r + done + [part] == r + (done + [part]);
  }

  lemma {:induction false} OneLonger(q: Phys, p: Phys, x: string)
    requires q <= p + [x]
    ensures q <= p || q == p + [x]
  {
  }

  lemma {:induction false} LinkFreeGrows(h: Host, r: Phys, done: seq<string>, part: string)
    requires LinkFree(h, r, done) && IsEntry(part)
    requires var node := r + done + [part]; node in h.fs ==> !h.fs[node].Link?
    ensures LinkFree(h, r, done + [part])
  {
    hide IsEntry;
    var node := r + done + [part];
    assert r + (done + [part]) == node;
    forall q | q in h.fs && r < q <= node ensures !h.fs[q].Link? {
      OneLonger(q, r + done, part);
    }
  }

  lemma {:induction false} DoneGrows(h: Host, r: Phys, done: seq<string>, part: string)
    requires Rooted(h, r) && LinkFree(h, r, done) && IsEntry(part)
    requires !IsLink(h, Candidate(h, done, part))
    ensures LinkFree(h, r, done + [part])
  {
    hide *;
    ProbeSees(h, r, done, part);
    LinkFreeGrows(h, r, done, part);
  }

  lemma DoneShrinks(h: Host, r: Phys, done: seq<string>)
    requires LinkFree(h, r, done) && done != []
    ensures LinkFree(h, r, done[..|done| - 1])
  {
    assert r + done == r + done[..|done| - 1] + [done[|done| - 1]];
  }

  lemma NothingDone(h: Host, r: Phys)
    ensures LinkFree(h, r, [])
  {
    assert r + [] == r;
  }

  ghost predicate Names(cs: seq<string>) {
    forall i | 0 <= i < |cs| :: IsName(cs[i])
  }

  ghost predicate Inv(h: Host, r: Phys, s: State) {
    LinkFree(h, r, s.done) && Names(s.pending)
  }

  /** Every turn of the loop keeps the invariant, and what it asks of the operating system is confined. */
  lemma {:induction false} TurnKeeps(h: Host, r: Phys, s: State)
    requires Rooted(h, r) && Inv(h, r, s)
    ensures Turn(h, s).Go? ==> Inv(h, r, Turn(h, s).next)
    ensures forall p | p in Probe(h, s) :: Confined(h, r, p) && Direct(h, r, p)
  {
    hide IsLink, Rooted, LinkFree, Confined, Direct;
    if s.pending != [] {
      var part := s.pending[0];
      assert IsName(part);
      if part == ".." {
        if s.done != [] {
          DoneShrinks(h, r, s.done);
        }
      } else if part != "." {
        ProbeSees(h, r, s.done, part);
        if !IsLink(h, Candidate(h, s.done, part)) {
          DoneGrows(h, r, s.done, part);
        }
      }
      NothingDone(h, r);
    }
  }

  /** Confinement, over whole runs: whatever links the tree holds, the operating system is only ever asked
      about direct paths below the root, and looking them up never takes it out of the tree. */
  lemma {:induction false} RunIsConfined(h: Host, r: Phys, s: State)
    requires Rooted(h, r) && Inv(h, r, s)
    ensures forall p | p in Probes(h, s) :: Confined(h, r, p) && Direct(h, r, p)
    ensures var out := Resolve(h, s);
            out.Resolved? ==> LinkFree(h, r, out.done)
    decreases s.left, |s.pending|
  {
    TurnKeeps(h, r, s);
    if Turn(h, s).Go? {
      RunIsConfined(h, r, Turn(h, s).next);
    }
  }

  // What the kernel of a system booted from `r` makes of the rest of the path.
  ghost function Booted(h: Host, r: Phys, s: State): Lookup {
    Walk(h.fs, r, r + s.done, s.pending, true, s.left)
  }

  // What the kernel walks for a link's text is its components, unless it finds nothing.
  lemma {:induction false} StepsOrNothing(fs: Tree, top: Phys, cur: Phys, text: string, rest: seq<string>, left: nat)
    ensures Walk(fs, top, cur, Steps(text) + rest, true, left) == Absent
            || Walk(fs, top, cur, Steps(text) + rest, true, left) ==
               Walk(fs, top, cur, Components(text) + rest, true, left)
  {
    hide Components, Walk;
    var cs := Components(text);
    WalkDot(fs, top, cur, cs, rest, left);
    assert (cs + ["."]) + rest == cs + (["."] + rest) && cs + [] == cs;
  }

  lemma {:induction false} LookupAgrees(h: Host, r: Phys, s: State)
    requires Rooted(h, r) && LinkFree(h, r, s.done) && s.pending != [] && IsEntry(s.pending[0])
    ensures Booted(h, r, s).Absent? ||
            Booted(h, r, s) == match Turn(h, s)
                               case Exhausted => TooManyLinks
                               case Go(next) => Booted(h, r, next)
  {
    hide IsLink, LinkFree, Confined, Direct, Components, Join, Rooted, Visited;
    var part := s.pending[0];
    var cur := r + s.done;
    var node := cur + [part];
    ProbeSees(h, r, s.done, part);
    assert node == r + (s.done + [part]);
    assert r + [] == r;
    if IsLink(h, Candidate(h, s.done, part)) {
      var target := h.fs[node].target;
      assert Turn(h, s).Go? ==>
        Turn(h, s).next ==
        State(if Absolute(target) then [] else s.done, Components(target) + s.pending[1..], s.left - 1);
      if s.left > 0 {
        StepsOrNothing(h.fs, r, if FromTop(target) then r else cur, target, s.pending[1..], s.left - 1);
      }
    } else {
      assert Turn(h, s) == Go(State(s.done + [part], s.pending[1..], s.left));
    }
  }

  lemma {:induction false} TurnAgrees(h: Host, r: Phys, s: State)
    requires Rooted(h, r) && Inv(h, r, s)
    ensures Booted(h, r, s).Absent? ||
            Booted(h, r, s) == match Turn(h, s)
                               case Finished => At(r + s.done, s.left)
                               case Exhausted => TooManyLinks
                               case Go(next) => Booted(h, r, next)
  {
    hide IsLink, LinkFree, Confined, Direct, Components, Join, Rooted;
    if s.pending != [] {
      assert IsName(s.pending[0]);
      if s.pending[0] == ".." {
        assert Parent(r, r + s.done) == r + (if s.done == [] then [] else s.done[..|s.done| - 1]);
      } else if s.pending[0] != "." {
        LookupAgrees(h, r, s);
      }
    }
  }

  /** The resolver agrees with the kernel of a system booted from the tree wherever that kernel finds
      something: the same node with the same budget left, or ELOOP on both sides. */
  lemma {:induction false} AgreesWithBooted(h: Host, r: Phys, s: State)
    requires Rooted(h, r) && Inv(h, r, s)
    ensures Booted(h, r, s).Absent? ||
            Booted(h, r, s) == match Resolve(h, s)
                               case Resolved(d, l) => At(r + d, l)
                               case LinkLoop => TooManyLinks
    decreases s.left, |s.pending|
  {
    TurnAgrees(h, r, s);
    TurnKeeps(h, r, s);
    if Turn(h, s).Go? {
      AgreesWithBooted(h, r, Turn(h, s).next);
    }
  }

  /** Resolution is compositional: xs ++ ys is ys resolved from the state xs leaves. */
  lemma {:induction false} ResolveAppend(h: Host, s: State, ys: seq<string>)
    ensures Resolve(h, s.(pending := s.pending + ys)) ==
            match Resolve(h, s)
            case Resolved(d, l) => Resolve(h, State(d, ys, l))
            case LinkLoop => LinkLoop
    decreases s.left, |s.pending|
  {
    var both := s.(pending := s.pending + ys);
    if s.pending == [] {
      assert s.pending + ys == ys;
    } else {
      var rest := s.pending[1..];
      assert both.pending[1..] == rest + ys;
      match Turn(h, s)
      case Exhausted =>
      case Go(next) =>
        var candidate := Candidate(h, s.done, s.pending[0]);
        if IsLink(h, candidate) && s.pending[0] != "." && s.pending[0] != ".." {
          var target := Components(ReadLink(h, candidate));
          assert target + (rest + ys) == (target + rest) + ys;
        }
        assert Turn(h, both) == Go(next.(pending := next.pending + ys));
        ResolveAppend(h, next, ys);
    }
  }

  /** A larger budget changes nothing but what is left of it. */
  lemma {:induction false} MoreBudget(h: Host, s: State, extra: nat)
    requires Resolve(h, s).Resolved?
    ensures var out := Resolve(h, s);
            Resolve(h, s.(left := s.left + extra)) == Resolved(out.done, out.left + extra)
    decreases s.left, |s.pending|
  {
    var more := s.(left := s.left + extra);
    if s.pending != [] {
      var next := Turn(h, s).next;
      assert Turn(h, more) == Go(next.(left := next.left + extra));
      MoreBudget(h, next, extra);
    }
  }

  lemma {:induction false} PlainPathStays(h: Host, r: Phys, s: State)
    requires Rooted(h, r) && LinkFree(h, r, s.done + s.pending)
    ensures Resolve(h, s) == Resolved(s.done + s.pending, s.left)
    decreases |s.pending|
  {
    hide IsLink, Confined, Direct, Components, Join, Rooted, Visited;
    var all := s.done + s.pending;
    if s.pending == [] {
      assert all == s.done;
    } else {
      var part := s.pending[0];
      assert part == all[|s.done|];
      PlainPrefix(h, r, s.done, all);
      ProbeSees(h, r, s.done, part);
      assert r + s.done + [part] <= r + all;
      var next := Turn(h, s).next;
      assert next.done + next.pending == all;
      PlainPathStays(h, r, next);
    }
  }

  lemma PlainPrefix(h: Host, r: Phys, done: seq<string>, all: seq<string>)
    requires LinkFree(h, r, all) && done <= all
    ensures LinkFree(h, r, done)
  {
    assert r + done <= r + all;
    forall i | 0 <= i < |done| ensures IsEntry(done[i]) { assert done[i] == all[i]; }
  }

  /** A resolved path is a fixed point: resolving it again gives it back and follows no link. */
  lemma {:induction false} ResolvedIsFixed(h: Host, r: Phys, path: string, maxLinks: nat)
    requires Rooted(h, r)
    requires Resolve(h, Start(path, maxLinks)).Resolved?
    ensures var done := Resolve(h, Start(path, maxLinks)).done;
            Resolve(h, Start("/" + Join(done), 0)) == Resolved(done, 0)
  {
    RunIsConfined(h, r, Start(path, maxLinks));
    var done := Resolve(h, Start(path, maxLinks)).done;
    forall i | 0 <= i < |done| ensures IsName(done[i]) { assert IsEntry(done[i]); }
    ComponentsOfJoin(done);
    assert ("/" + Join(done))[1..] == Join(done);
    assert [] + done == done;
    PlainPathStays(h, r, State([], done, 0));
  }
}
