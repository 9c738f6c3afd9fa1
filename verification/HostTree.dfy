/**
  The directory tree behind the scanner and the kernel's path walk over it.

  The tree holds one node for every absolute path that exists.  `Walk` is the kernel's lookup: it
  follows symlinks, keeps `..` at the process root `top`, and re-roots absolute targets there.  With
  `top == []` it is the lookup of the scanning machine, with `top == r` that of a system booted from `r`.
 */
module HostTree {
  datatype Node = Dir | File | Link(target: string)

  // An absolute path of real directory entries, outermost first; [] is "/".
  type Phys = seq<string>

  type Tree = map<Phys, Node>

  // `left` is the number of symlinks the walk may still follow.
  datatype Lookup = At(path: Phys, left: nat) | Absent | TooManyLinks

  // Linux's MAXSYMLINKS.
  const KERNEL_LINKS: nat := 40

  predicate IsName(c: string) {
    c != "" && '/' !in c
  }

  // A name of an actual directory entry.
  predicate IsEntry(c: string) {
    IsName(c) && c != "." && c != ".."
  }

  ghost predicate Entries(cs: seq<string>) {
    forall i | 0 <= i < |cs| :: IsEntry(cs[i])
  }

  // Every node but "/" lies in a directory.
  ghost predicate WellFormed(fs: Tree) {
    && [] in fs && fs[[]].Dir?
    && forall p: Phys, c: string | p + [c] in fs :: p in fs && fs[p].Dir?
  }

  function NextSlash(s: string): (k: nat)
    ensures k <= |s| && '/' !in s[..k] && (k < |s| ==> s[k] == '/')
  {
    if s == "" || s[0] == '/' then 0
    else
      var k := 1 + NextSlash(s[1..]);
      assert s[..k] == [s[0]] + s[1..][..k - 1];
      k
  }

  // [c for c in s.split("/") if c]
  function Components(s: string): (cs: seq<string>)
    ensures forall i | 0 <= i < |cs| :: IsName(cs[i])
    decreases |s|
  {
    if s == "" then []
    else if s[0] == '/' then Components(s[1..])
    else [s[..NextSlash(s)]] + Components(s[NextSlash(s)..])
  }

  predicate EndsInSlash(s: string) {
    s != "" && s[|s| - 1] == '/'
  }

  // What the kernel walks for a text: one that ends in "/" has to come to a directory, as one that ends in "."
  // has.
  function Steps(s: string): (cs: seq<string>)
    ensures forall i | 0 <= i < |cs| :: IsName(cs[i])
  {
    Components(s) + if EndsInSlash(s) then ["."] else []
  }

  // "/".join(cs)
  function Join(cs: seq<string>): string {
    if cs == [] then "" else if |cs| == 1 then cs[0] else cs[0] + "/" + Join(cs[1..])
  }

  function Parent(top: Phys, cur: Phys): Phys {
    if cur == top || cur == [] then cur else cur[..|cur| - 1]
  }

  predicate FromTop(target: string) {
    "/" <= target
  }

  function Walk(fs: Tree, top: Phys, cur: Phys, todo: seq<string>, follow: bool, left: nat): Lookup
    decreases left, |todo|
  {
    if todo == [] then At(cur, left)
    else if cur !in fs || !fs[cur].Dir? then Absent
    else if todo[0] == "." then Walk(fs, top, cur, todo[1..], follow, left)
    else if todo[0] == ".." then Walk(fs, top, Parent(top, cur), todo[1..], follow, left)
    else
      var next := cur + [todo[0]];
      if next !in fs then Absent
      else match fs[next]
        case Link(target) =>
          if |todo| == 1 && !follow then At(next, left)
          else if target == "" then Absent
          else if left == 0 then TooManyLinks
          else Walk(fs, top, if FromTop(target) then top else cur,
                    Steps(target) + todo[1..], follow, left - 1)
        case _ => Walk(fs, top, next, todo[1..], follow, left)
  }

  // Every path the walk examines.
  function Visited(fs: Tree, top: Phys, cur: Phys, todo: seq<string>, follow: bool, left: nat): set<Phys>
    decreases left, |todo|
  {
    {cur} +
    if todo == [] || cur !in fs || !fs[cur].Dir? then {}
    else if todo[0] == "." then Visited(fs, top, cur, todo[1..], follow, left)
    else if todo[0] == ".." then Visited(fs, top, Parent(top, cur), todo[1..], follow, left)
    else
      var next := cur + [todo[0]];
      {next} +
      if next !in fs then {}
      else match fs[next]
        case Link(target) =>
          if (|todo| == 1 && !follow) || target == "" || left == 0 then {}
          else Visited(fs, top, if FromTop(target) then top else cur,
                       Steps(target) + todo[1..], follow, left - 1)
        case _ => Visited(fs, top, next, todo[1..], follow, left)
  }

  lemma {:induction false} ComponentsOfSlash(a: string, b: string)
    ensures Components(a + "/" + b) == Components(a) + Components(b)
    decreases |a|
  {
    var s := a + "/" + b;
    if a == "" {
      assert s[1..] == b;
    } else if a[0] == '/' {
      assert s[1..] == a[1..] + "/" + b;
      ComponentsOfSlash(a[1..], b);
    } else {
      NextSlashOfSlash(a, b);
      var k := NextSlash(a);
      assert s[k..] == a[k..] + "/" + b;
      assert s[..k] == a[..k];
      ComponentsOfSlash(a[k..], b);
    }
  }

  lemma {:induction false} NextSlashOfSlash(a: string, b: string)
    ensures NextSlash(a + "/" + b) == NextSlash(a)
  {
    var s := a + "/" + b;
    if a == "" {
    } else if a[0] != '/' {
      assert s[1..] == a[1..] + "/" + b;
      NextSlashOfSlash(a[1..], b);
    }
  }

  lemma {:induction false} ComponentsOfName(c: string)
    requires IsName(c)
    ensures Components(c) == [c]
  {
    var k := NextSlash(c);
    assert c[..k] == c && c[k..] == "";
  }

  lemma {:induction false} ComponentsOfJoin(cs: seq<string>)
    requires forall i | 0 <= i < |cs| :: IsName(cs[i])
    ensures Components(Join(cs)) == cs
  {
    if cs == [] {
    } else if |cs| == 1 {
      ComponentsOfName(cs[0]);
    } else {
      ComponentsOfSlash(cs[0], Join(cs[1..]));
      ComponentsOfName(cs[0]);
      ComponentsOfJoin(cs[1..]);
    }
  }

  // Walking a ++ b (with b not empty) is walking b from where a, fully followed, ends.
  lemma {:induction false} WalkAppend(fs: Tree, top: Phys, cur: Phys, a: seq<string>, b: seq<string>,
                                      follow: bool, left: nat)
    requires b != []
    ensures Walk(fs, top, cur, a + b, follow, left) ==
            match Walk(fs, top, cur, a, true, left)
            case At(p, l) => Walk(fs, top, p, b, follow, l)
            case other => other
    ensures Visited(fs, top, cur, a + b, follow, left) ==
            Visited(fs, top, cur, a, true, left) +
            match Walk(fs, top, cur, a, true, left)
            case At(p, l) => Visited(fs, top, p, b, follow, l)
            case _ => {}
    decreases left, |a|
  {
    hide Steps, FromTop;
    if a == [] {
      assert a + b == b;
    } else {
      assert (a + b)[1..] == a[1..] + b;
      if cur in fs && fs[cur].Dir? {
        if a[0] == "." {
          WalkAppend(fs, top, cur, a[1..], b, follow, left);
        } else if a[0] == ".." {
          WalkAppend(fs, top, Parent(top, cur), a[1..], b, follow, left);
        } else {
          var next := cur + [a[0]];
          if next in fs {
            match fs[next]
            case Link(target) =>
              if target != "" && left > 0 {
                var from := if FromTop(target) then top else cur;
                assert Steps(target) + (a[1..] + b) == (Steps(target) + a[1..]) + b;
                WalkAppend(fs, top, from, Steps(target) + a[1..], b, follow, left - 1);
              }
            case _ => WalkAppend(fs, top, next, a[1..], b, follow, left);
          }
        }
      }
    }
  }

  // A "." on the way makes no difference but where there is no directory.
  lemma {:induction false} WalkDot(fs: Tree, top: Phys, cur: Phys, a: seq<string>, b: seq<string>, left: nat)
    ensures Walk(fs, top, cur, a + (["."] + b), true, left) == Absent
            || Walk(fs, top, cur, a + (["."] + b), true, left) == Walk(fs, top, cur, a + b, true, left)
  {
    WalkAppend(fs, top, cur, a, ["."] + b, true, left);
    assert (["."] + b)[1..] == b;
    if b == [] {
      assert a + b == a;
    } else {
      WalkAppend(fs, top, cur, a, b, true, left);
    }
  }

  // No node strictly between `lo` and `hi` is a link.
  ghost predicate NoLinkBetween(fs: Tree, lo: Phys, hi: Phys) {
    forall q | q in fs && lo < q < hi :: !fs[q].Link?
  }

  // Going down plain entries, no proper prefix of which is a link, the walk follows nothing and
  // leaves the subtree of `cur` alone.
  lemma {:induction false} WalkDown(fs: Tree, top: Phys, cur: Phys, cs: seq<string>, left: nat)
    requires WellFormed(fs) && Entries(cs) && cs != []
    requires cur in fs && fs[cur].Dir?
    requires NoLinkBetween(fs, cur, cur + cs)
    ensures Walk(fs, top, cur, cs, false, left) == if cur + cs in fs then At(cur + cs, left) else Absent
    ensures forall p | p in Visited(fs, top, cur, cs, false, left) :: cur <= p
    decreases |cs|
  {
    var next := cur + [cs[0]];
    var rest := cs[1..];
    assert IsEntry(cs[0]);
    assert cur + cs == next + rest;
    if rest == [] {
      assert next == cur + cs;
    } else if next in fs && fs[next].Dir? {
      assert Entries(rest);
      WalkDown(fs, top, next, rest, left);
    } else {
      NothingBelow(fs, next, rest);
      assert cur < next < cur + cs;
    }
  }

  // Only directories have anything below them.
  lemma {:induction false} NothingBelow(fs: Tree, p: Phys, cs: seq<string>)
    requires WellFormed(fs) && cs != []
    requires p !in fs || !fs[p].Dir?
    ensures p + cs !in fs
    decreases |cs|
  {
    var above := p + cs[..|cs| - 1];
    assert p + cs == above + [cs[|cs| - 1]];
    if |cs| == 1 {
      assert above == p;
    } else {
      NothingBelow(fs, p, cs[..|cs| - 1]);
    }
  }
}
