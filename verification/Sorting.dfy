/** Python's `sorted` on strings: order by code point, prefixes first. */
module Sorting {
  predicate AtMost(a: string, b: string) {
    a == "" || (b != "" && (a[0] < b[0] || (a[0] == b[0] && AtMost(a[1..], b[1..]))))
  }

  // The texts part at k, where `a` has the lesser character.
  ghost predicate Before(a: string, b: string, k: nat) {
    k < |a| && k < |b| && a[..k] == b[..k] && a[k] < b[k]
  }

  lemma {:induction false} BeforeTail(a: string, b: string, k: nat)
    requires a != "" && b != "" && a[0] == b[0]
    ensures Before(a, b, k + 1) <==> Before(a[1..], b[1..], k)
  {
    if k + 1 < |a| && k + 1 < |b| {
      assert a[..k + 1] == [a[0]] + a[1..][..k] && b[..k + 1] == [b[0]] + b[1..][..k];
      assert a[..k + 1][1..] == a[1..][..k] && b[..k + 1][1..] == b[1..][..k];
    }
  }

  /** The order: a prefix comes first, otherwise the first character that differs decides. */
  lemma {:induction false} OrderMeans(a: string, b: string)
    ensures AtMost(a, b) <==> a <= b || exists k :: Before(a, b, k)
    decreases |a|
  {
    if a != "" && b != "" {
      if a[0] == b[0] {
        var x, y := a[1..], b[1..];
        OrderMeans(x, y);
        assert a == [a[0]] + x && b == [b[0]] + y;
        assert a <= b <==> x <= y;
        if k :| Before(x, y, k) {
          BeforeTail(a, b, k);
        }
        if k: nat :| Before(a, b, k) {
          if k > 0 {
            BeforeTail(a, b, k - 1);
          }
        }
      } else {
        HeadsDecide(a, b);
      }
    }
  }

  lemma {:induction false} HeadsDecide(a: string, b: string)
    requires a != "" && b != "" && a[0] != b[0]
    ensures !(a <= b) && (a[0] < b[0] <==> exists k :: Before(a, b, k))
  {
    if k :| Before(a, b, k) {
      SamePrefix(a, b, k);
    }
    if a[0] < b[0] {
      assert Before(a, b, 0);
    }
  }

  lemma {:induction false} SamePrefix(a: string, b: string, k: nat)
    requires k <= |a| && k <= |b| && a[..k] == b[..k]
    ensures k > 0 ==> a[0] == b[0]
  {
    if k > 0 {
      assert a[..k][0] == b[..k][0];
    }
  }

  lemma {:induction false} Total(a: string, b: string)
    ensures AtMost(a, b) || AtMost(b, a)
    decreases |a|
  {
    if a != "" && b != "" && a[0] == b[0] {
      Total(a[1..], b[1..]);
    }
  }

  lemma {:induction false} Antisymmetric(a: string, b: string)
    requires AtMost(a, b) && AtMost(b, a)
    ensures a == b
    decreases |a|
  {
    if a != "" {
      Antisymmetric(a[1..], b[1..]);
      assert a == [a[0]] + a[1..] && b == [b[0]] + b[1..];
    }
  }

  lemma {:induction false} Transitive(a: string, b: string, c: string)
    requires AtMost(a, b) && AtMost(b, c)
    ensures AtMost(a, c)
    decreases |a|
  {
    if a != "" && a[0] == b[0] == c[0] {
      Transitive(a[1..], b[1..], c[1..]);
    }
  }

  function Insert(x: string, ys: seq<string>): seq<string> {
    if ys == [] || AtMost(x, ys[0]) then [x] + ys else [ys[0]] + Insert(x, ys[1..])
  }

  function Sorted(xs: seq<string>): seq<string> {
    if xs == [] then [] else Insert(xs[0], Sorted(xs[1..]))
  }

  predicate IsSorted(xs: seq<string>) {
    |xs| < 2 || (AtMost(xs[0], xs[1]) && IsSorted(xs[1..]))
  }

  lemma {:induction false} InsertKeepsAll(x: string, ys: seq<string>)
    ensures multiset(Insert(x, ys)) == multiset(ys) + multiset{x}
    decreases |ys|
  {
    if ys != [] && !AtMost(x, ys[0]) {
      InsertKeepsAll(x, ys[1..]);
      assert ys == [ys[0]] + ys[1..];
    }
  }

  lemma {:induction false} SortedCons(x: string, ys: seq<string>)
    requires IsSorted(ys) && (ys == [] || AtMost(x, ys[0]))
    ensures IsSorted([x] + ys)
  {
    assert ([x] + ys)[1..] == ys;
  }

  lemma {:induction false} InsertKeepsOrder(x: string, ys: seq<string>)
    requires IsSorted(ys)
    ensures IsSorted(Insert(x, ys))
    ensures Insert(x, ys)[0] == if ys == [] || AtMost(x, ys[0]) then x else ys[0]
    decreases |ys|
  {
    hide AtMost;
    if ys == [] || AtMost(x, ys[0]) {
      SortedCons(x, ys);
    } else {
      Total(x, ys[0]);
      InsertKeepsOrder(x, ys[1..]);
      SortedCons(ys[0], Insert(x, ys[1..]));
    }
  }

  lemma {:induction false} SortedIsSorted(xs: seq<string>)
    ensures IsSorted(Sorted(xs)) && multiset(Sorted(xs)) == multiset(xs)
    decreases |xs|
  {
    if xs != [] {
      SortedIsSorted(xs[1..]);
      InsertKeepsAll(xs[0], Sorted(xs[1..]));
      InsertKeepsOrder(xs[0], Sorted(xs[1..]));
      assert xs == [xs[0]] + xs[1..];
    }
  }

  lemma {:induction false} HeadIsLeast(xs: seq<string>, y: string)
    requires IsSorted(xs) && y in multiset(xs)
    ensures AtMost(xs[0], y)
    decreases |xs|
  {
    assert xs == [xs[0]] + xs[1..];
    Total(y, y);
    if y != xs[0] {
      assert y in multiset(xs[1..]);
      HeadIsLeast(xs[1..], y);
      Transitive(xs[0], xs[1], y);
    }
  }

  lemma {:induction false} SortedIsUnique(xs: seq<string>, ys: seq<string>)
    requires IsSorted(xs) && IsSorted(ys) && multiset(xs) == multiset(ys)
    ensures xs == ys
    decreases |xs|
  {
    assert |xs| == |multiset(xs)| == |multiset(ys)| == |ys|;
    if xs != [] {
      assert xs == [xs[0]] + xs[1..] && ys == [ys[0]] + ys[1..];
      assert xs[0] in multiset(ys) && ys[0] in multiset(xs);
      HeadIsLeast(xs, ys[0]);
      HeadIsLeast(ys, xs[0]);
      Antisymmetric(xs[0], ys[0]);
      assert multiset(xs[1..]) == multiset(xs) - multiset{xs[0]};
      assert multiset(ys[1..]) == multiset(ys) - multiset{ys[0]};
      SortedIsUnique(xs[1..], ys[1..]);
    }
  }

  /** The order a listing comes in does not matter once it is sorted. */
  lemma {:induction false} OrderForgotten(xs: seq<string>, ys: seq<string>)
    requires multiset(xs) == multiset(ys)
    ensures Sorted(xs) == Sorted(ys)
  {
    SortedIsSorted(xs);
    SortedIsSorted(ys);
    SortedIsUnique(Sorted(xs), Sorted(ys));
  }
}
