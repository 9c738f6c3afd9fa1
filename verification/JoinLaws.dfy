/** What the index and the join promise: an exact search, counters that add up, and no trace of report order. */
module JoinLaws {
  import opened Options
  import opened HostIndex
  import opened ObservationJoin
  import Sorting

  // ---- The search, without tiers tried in turn ----

  function Rank(b: Basis): nat {
    match b
    case Fqdn => 0
    case Sni => 1
    case Ip => 2
    case ShortName => 3
    case Certificate => 4
  }

  // The name is the label `first`, or that and more behind a dot.
  predicate Starts(name: string, first: string) {
    name == first || first + "." <= name
  }

  // Both names have the same first label.
  ghost predicate SameLabel(a: string, b: string) {
    exists first | Starts(a, first) :: '.' !in first && Starts(b, first)
  }

  // What ties the observation to the host: the same full name, a specific address the host listens on, the same
  // first label, or one of its certificates.
  ghost predicate Ties(h: HostEntry, o: Observation, basis: Basis) {
    match basis
    case Fqdn => o.fqdn != "" && h.name == o.fqdn
    case Sni => o.sni != "" && h.name == o.sni
    case Ip => o.ip != "" && exists ln | ln in h.listeners :: ln.bindScope == "specific" && ln.address == o.ip
    case ShortName =>
      && h.name != ""
      && ((o.fqdn != "" && SameLabel(h.name, o.fqdn)) || (o.sni != "" && SameLabel(h.name, o.sni)))
    case Certificate => o.cert != "" && o.cert in h.certs
  }

  // The hosts tied to the observation at a tier.
  ghost function Tied(hosts: seq<HostEntry>, o: Observation, b: Basis): set<nat> {
    set i: nat | i < |hosts| && Ties(hosts[i], o, b)
  }

  lemma {:induction false} ShortStarts(name: string)
    ensures '.' !in Short(name) && Starts(name, Short(name))
  {
    if name != "" && name[0] != '.' {
      ShortStarts(name[1..]);
      assert name == [name[0]] + name[1..];
      if Short(name[1..]) + "." <= name[1..] {
        assert Short(name) + "." == [name[0]] + (Short(name[1..]) + ".");
      }
    } else if name != "" {
      assert "" + "." == "." && "." <= name;
    }
  }

  lemma {:induction false} StartsIsShort(name: string, first: string)
    requires '.' !in first && Starts(name, first)
    ensures first == Short(name)
    decreases |first|
  {
    if first == "" {
      assert name != "" ==> "" + "." == "." && name[0] == '.';
    } else {
      assert name[0] == first[0];
      if first + "." <= name {
        assert (first + ".")[1..] == first[1..] + "." && first[1..] + "." <= name[1..];
      }
      StartsIsShort(name[1..], first[1..]);
    }
  }

  lemma {:induction false} LabelsAre(a: string, b: string)
    ensures SameLabel(a, b) <==> Short(a) == Short(b)
  {
    ShortStarts(a);
    ShortStarts(b);
    if SameLabel(a, b) {
      var first :| Starts(a, first) && '.' !in first && Starts(b, first);
      hide Short, Starts;
      StartsIsShort(a, first);
      StartsIsShort(b, first);
    }
  }

  lemma {:induction false} AnswersAre(h: HostEntry, o: Observation, b: Basis)
    ensures Answers(h, o, b) <==> Ties(h, o, b)
  {
    hide Short, SameLabel;
    LabelsAre(h.name, o.fqdn);
    LabelsAre(h.name, o.sni);
  }

  lemma {:induction false} HitsAre(hosts: seq<HostEntry>, o: Observation)
    ensures forall b :: Hits(hosts, o, b) == Tied(hosts, o, b)
  {
    hide Answers, Ties;
    forall b ensures Hits(hosts, o, b) == Tied(hosts, o, b) {
      forall i: nat | i < |hosts| ensures Answers(hosts[i], o, b) <==> Ties(hosts[i], o, b) {
        AnswersAre(hosts[i], o, b);
      }
    }
  }

  // The strongest tier at which any host is tied to the observation.
  ghost predicate First(hosts: seq<HostEntry>, o: Observation, b: Basis) {
    Tied(hosts, o, b) != {} && forall b2 | Rank(b2) < Rank(b) :: Tied(hosts, o, b2) == {}
  }

  // Just these positions, in ascending order.
  ghost predicate Lists(c: seq<nat>, s: set<nat>) {
    (forall i, j | 0 <= i < j < |c| :: c[i] < c[j]) && forall x :: x in c <==> x in s
  }

  // What the answer must be, said of all hosts at once.
  ghost predicate Decides(hosts: seq<HostEntry>, o: Observation, m: Match) {
    match m
    case NoMatch => forall b :: Tied(hosts, o, b) == {}
    case Unique(h, b, narrowed) =>
      && First(hosts, o, b)
      && if narrowed then
           |Tied(hosts, o, b)| > 1 && b != Certificate && Tied(hosts, o, b) * Tied(hosts, o, Certificate) == {h}
         else Tied(hosts, o, b) == {h}
    case Ambiguous(c) =>
      exists b :: First(hosts, o, b) && |Tied(hosts, o, b)| > 1 && Lists(c, Tied(hosts, o, b))
                  && (b == Certificate || |Tied(hosts, o, b) * Tied(hosts, o, Certificate)| != 1)
  }

  lemma {:induction false} AscendingSize(s: set<nat>, n: nat)
    requires forall x | x in s :: x < n
    ensures |Ascending(s, n)| == |s|
    decreases n
  {
    if n > 0 {
      var below := s - {n - 1};
      AscendingSize(below, n - 1);
      AscendingIgnores(s, below, n - 1);
      if n - 1 in s {
        assert s == below + {n - 1};
      } else {
        assert s == below;
      }
    }
  }

  lemma {:induction false} AscendingCounts(s: set<nat>, n: nat)
    requires forall x | x in s :: x < n
    ensures |Ascending(s, n)| == |s|
    ensures |s| == 1 ==> s == {Ascending(s, n)[0]}
  {
    AscendingSize(s, n);
    if |s| == 1 {
      var x := Ascending(s, n)[0];
      hide Ascending;
      assert x in s && |s - {x}| == 0;
      assert s == (s - {x}) + {x};
    }
  }

  lemma {:induction false} AscendingIgnores(s: set<nat>, t: set<nat>, n: nat)
    requires forall x: nat | x < n :: x in s <==> x in t
    ensures Ascending(s, n) == Ascending(t, n)
    decreases n
  {
    if n > 0 {
      AscendingIgnores(s, t, n - 1);
    }
  }

  lemma {:induction false} SingletonIs(s: set<nat>, x: nat)
    requires s == {x}
    ensures |s| == 1
  {
  }

  lemma {:induction false} TiersAre(t: nat)
    ensures |TIERS| == 5 && (t < 5 ==> Rank(TIERS[t]) == t)
    ensures forall b: Basis :: b == TIERS[Rank(b)]
  {
  }

  lemma {:induction false} AscendingLists(s: set<nat>, n: nat)
    ensures forall i, j | 0 <= i < j < |Ascending(s, n)| :: Ascending(s, n)[i] < Ascending(s, n)[j]
    ensures forall x :: x in Ascending(s, n) <==> x in s && x < n
    decreases n
  {
    if n > 0 {
      AscendingLists(s, n - 1);
    }
  }

  lemma {:induction false} ListsSome(c: seq<nat>, s: set<nat>)
    requires Lists(c, s)
    ensures c == [] <==> s == {}
  {
    if c != [] {
      assert c[0] in c;
    }
  }

  // The last position is the greatest; the others list the rest.
  lemma {:induction false} ListsLast(c: seq<nat>, s: set<nat>)
    requires Lists(c, s) && c != []
    ensures var x := c[|c| - 1];
            x in s && (forall y | y in s :: y <= x) && Lists(c[..|c| - 1], s - {x})
  {
    var n := |c| - 1;
    var x, c1 := c[n], c[..n];
    assert c == c1 + [x];
    forall y ensures y in c1 <==> y in s - {x} {
      assert y in c <==> y in c1 || y == x;
      if y in c1 {
        var i :| 0 <= i < n && c1[i] == y;
        assert c[i] < c[n];
      }
    }
  }

  lemma {:induction false} ListsOnce(c: seq<nat>, d: seq<nat>, s: set<nat>)
    requires Lists(c, s) && Lists(d, s)
    ensures c == d
    decreases |c|
  {
    hide Lists;
    ListsSome(c, s);
    ListsSome(d, s);
    if c != [] {
      ListsLast(c, s);
      ListsLast(d, s);
      var x := c[|c| - 1];
      assert x == d[|d| - 1];
      ListsOnce(c[..|c| - 1], d[..|d| - 1], s - {x});
      assert c == c[..|c| - 1] + [x] && d == d[..|d| - 1] + [x];
    }
  }

  // The hits of a tier in order.
  lemma {:induction false} HitsCount(hosts: seq<HostEntry>, s: set<nat>)
    requires forall x | x in s :: x < |hosts|
    ensures var c := Ascending(s, |hosts|);
            Lists(c, s) && |c| == |s| && (|s| == 1 ==> s == {c[0]})
  {
    AscendingLists(s, |hosts|);
    AscendingCounts(s, |hosts|);
  }

  lemma {:induction false} SearchDecidesFrom(hosts: seq<HostEntry>, o: Observation, t: nat)
    requires t <= 5 && forall b | Rank(b) < t :: Tied(hosts, o, b) == {}
    ensures Decides(hosts, o, SearchFrom(hosts, o, TIERS[t..]))
    decreases 5 - t
  {
    hide Hits, Ties, Ascending, Lists;
    HitsAre(hosts, o);
    TiersAre(t);
    if t == 5 {
      assert TIERS[5..] == [];
      forall b ensures Tied(hosts, o, b) == {} {
        assert Rank(b) < 5;
      }
    } else {
      var b := TIERS[t];
      assert TIERS[t..][0] == b && TIERS[t..][1..] == TIERS[t + 1..];
      HitsCount(hosts, Tied(hosts, o, b));
      HitsCount(hosts, Tied(hosts, o, b) * Tied(hosts, o, Certificate));
      hide Tied;
      if |Tied(hosts, o, b)| == 0 {
        forall b2 | Rank(b2) < t + 1 ensures Tied(hosts, o, b2) == {} {
          if Rank(b2) == t {
            TiersAre(Rank(b2));
          }
        }
        SearchDecidesFrom(hosts, o, t + 1);
      } else {
        assert First(hosts, o, b);
      }
    }
  }

  lemma {:induction false} FirstIsUnique(hosts: seq<HostEntry>, o: Observation, b1: Basis, b2: Basis)
    requires First(hosts, o, b1) && First(hosts, o, b2)
    ensures b1 == b2
  {
    hide Tied;
    TiersAre(0);
    assert !(Rank(b1) < Rank(b2)) && !(Rank(b2) < Rank(b1));
  }

  lemma {:induction false} DecisionIsUnique(hosts: seq<HostEntry>, o: Observation, m1: Match, m2: Match)
    requires Decides(hosts, o, m1) && Decides(hosts, o, m2)
    ensures m1 == m2
  {
    hide Tied, Lists;
    forall b1, b2 | First(hosts, o, b1) && First(hosts, o, b2) ensures b1 == b2 {
      FirstIsUnique(hosts, o, b1, b2);
    }
    forall s: set<nat>, x: nat | s == {x} ensures |s| == 1 {
      SingletonIs(s, x);
    }
    match (m1, m2)
    case (Unique(h1, b1, _), Unique(h2, b2, _)) => assert h1 in {h2};
    case (Ambiguous(c1), Ambiguous(c2)) =>
      var b :| First(hosts, o, b) && Lists(c1, Tied(hosts, o, b));
      ListsOnce(c1, c2, Tied(hosts, o, b));
    case _ =>
  }

  /** The index's answer is exactly what a search over all hosts calls for: a unique host at the strongest
      tier that has any, with the certificate deciding where it can, or the two or more hosts it cannot
      tell apart, or none. */
  lemma {:induction false} SearchIsExact(hosts: seq<HostEntry>, o: Observation, m: Match)
    ensures Search(hosts, o) == m <==> Decides(hosts, o, m)
  {
    hide Tied, Decides;
    assert TIERS[0..] == TIERS;
    SearchDecidesFrom(hosts, o, 0);
    if Decides(hosts, o, m) {
      DecisionIsUnique(hosts, o, m, Search(hosts, o));
    }
  }

  lemma {:induction false} AmbiguousMeansTwo(hosts: seq<HostEntry>, o: Observation)
    requires Search(hosts, o).Ambiguous?
    ensures |Search(hosts, o).candidates| >= 2
  {
    hide Ties, Search, Lists;
    var c := Search(hosts, o).candidates;
    SearchIsExact(hosts, o, Search(hosts, o));
    var b :| First(hosts, o, b) && |Tied(hosts, o, b)| > 1 && Lists(c, Tied(hosts, o, b));
    HitsCount(hosts, Tied(hosts, o, b));
    ListsOnce(c, Ascending(Tied(hosts, o, b), |hosts|), Tied(hosts, o, b));
  }

  // ---- The listener behind an endpoint ----

  // The record can have reached the listener, in the host's own network namespace if `local`: on its protocol and
  // port, bound to every address, or to the observed one, or to any where the observation names none.
  predicate CanReach(ln: Listener, r: Record, local: bool) {
    && ln.protocol == r.transport && ln.port == r.port
    && (|| ln.bindScope == "any"
        || (ln.bindScope == "specific" && (r.endpoint.ip == "" || r.endpoint.ip == ln.address)))
    && (local ==> ln.hostNamespace)
  }

  lemma {:induction false} ReachableIs(ln: Listener, r: Record)
    ensures CanReach(ln, r, false) == Reachable(ln, r)
    ensures CanReach(ln, r, true) == (Reachable(ln, r) && ln.hostNamespace)
  {
  }

  ghost predicate Reached(lns: seq<Listener>, r: Record, local: bool) {
    exists i | 0 <= i < |lns| :: CanReach(lns[i], r, local)
  }

  // The first listener it can have reached.
  ghost predicate FirstReached(lns: seq<Listener>, r: Record, local: bool, ln: Listener) {
    exists i | 0 <= i < |lns| ::
      CanReach(lns[i], r, local) && lns[i] == ln && forall j | 0 <= j < i :: !CanReach(lns[j], r, local)
  }

  lemma {:induction false} ReachableGrow(lns: seq<Listener>, ln: Listener, r: Record)
    ensures ReachableListeners(lns + [ln], r) == ReachableListeners(lns, r) + if Reachable(ln, r) then [ln] else []
    decreases |lns|
  {
    hide Reachable;
    if lns == [] {
      assert lns + [ln] == [ln] && [ln][1..] == [];
    } else {
      var first: seq<Listener> := if Reachable(lns[0], r) then [lns[0]] else [];
      var last: seq<Listener> := if Reachable(ln, r) then [ln] else [];
      assert (lns + [ln])[0] == lns[0] && (lns + [ln])[1..] == lns[1..] + [ln];
      ReachableGrow(lns[1..], ln, r);
      Rejoin(first, ReachableListeners(lns[1..], r), last);
    }
  }

  lemma {:induction false} Rejoin(a: seq<Listener>, b: seq<Listener>, c: seq<Listener>)
    ensures a + (b + c) == (a + b) + c
  {
  }

  lemma {:induction false} LocalGrow(lns: seq<Listener>, ln: Listener)
    ensures InHostNamespace(lns + [ln]) == InHostNamespace(lns) + if ln.hostNamespace then [ln] else []
    decreases |lns|
  {
    if lns == [] {
      assert lns + [ln] == [ln] && [ln][1..] == [];
    } else {
      var first: seq<Listener> := if lns[0].hostNamespace then [lns[0]] else [];
      var last: seq<Listener> := if ln.hostNamespace then [ln] else [];
      assert (lns + [ln])[0] == lns[0] && (lns + [ln])[1..] == lns[1..] + [ln];
      LocalGrow(lns[1..], ln);
      Rejoin(first, InHostNamespace(lns[1..]), last);
    }
  }

  // `hits` are what the record can have reached among `lns`.
  ghost predicate AreReached(lns: seq<Listener>, r: Record, local: bool, hits: seq<Listener>) {
    && |hits| == |set i: nat | i < |lns| && CanReach(lns[i], r, local)|
    && (hits == [] <==> !Reached(lns, r, local))
    && (hits != [] ==> FirstReached(lns, r, local, hits[0]))
  }

  lemma {:induction false} CountGrows(lns: seq<Listener>, ln: Listener, r: Record, local: bool)
    ensures |set i: nat | i < |lns + [ln]| && CanReach((lns + [ln])[i], r, local)| ==
            |set i: nat | i < |lns| && CanReach(lns[i], r, local)| + One(CanReach(ln, r, local))
  {
    hide CanReach;
    var n, more := |lns|, lns + [ln];
    var before := set i: nat | i < n && CanReach(lns[i], r, local);
    var after := set i: nat | i < n + 1 && CanReach(more[i], r, local);
    assert more[n] == ln;
    assert after == before + if CanReach(ln, r, local) then {n} else {};
  }

  lemma {:induction false} ReachedGrows(lns: seq<Listener>, ln: Listener, r: Record, local: bool)
    ensures Reached(lns + [ln], r, local) == (Reached(lns, r, local) || CanReach(ln, r, local))
    ensures !Reached(lns, r, local) && CanReach(ln, r, local) ==> FirstReached(lns + [ln], r, local, ln)
  {
    hide CanReach;
    var n, more := |lns|, lns + [ln];
    assert more[n] == ln;
    assert more[..n] == lns && forall i | 0 <= i < n :: more[i] == lns[i];
  }

  lemma {:induction false} FirstStays(lns: seq<Listener>, ln: Listener, r: Record, local: bool, first: Listener)
    requires FirstReached(lns, r, local, first)
    ensures FirstReached(lns + [ln], r, local, first)
  {
    hide CanReach;
    var i :| 0 <= i < |lns| && CanReach(lns[i], r, local) && lns[i] == first
             && forall j | 0 <= j < i :: !CanReach(lns[j], r, local);
    assert (lns + [ln])[i] == first;
  }

  lemma {:induction false} OneMoreReached(lns: seq<Listener>, ln: Listener, r: Record, local: bool, hits: seq<Listener>)
    requires AreReached(lns, r, local, hits)
    ensures AreReached(lns + [ln], r, local, hits + if CanReach(ln, r, local) then [ln] else [])
  {
    CountGrows(lns, ln, r, local);
    ReachedGrows(lns, ln, r, local);
    hide CanReach, Reached, FirstReached;
    if hits != [] {
      FirstStays(lns, ln, r, local, hits[0]);
    }
  }

  lemma {:induction false} NoneReached(r: Record, local: bool)
    ensures AreReached([], r, local, [])
  {
  }

  lemma {:induction false} HitsAreReached(lns: seq<Listener>, r: Record)
    ensures AreReached(lns, r, false, ReachableListeners(lns, r))
    ensures AreReached(lns, r, true, InHostNamespace(ReachableListeners(lns, r)))
    decreases |lns|
  {
    NoneReached(r, false);
    NoneReached(r, true);
    if lns != [] {
      hide AreReached, ReachableListeners, InHostNamespace, Reachable, CanReach;
      var before, ln := lns[..|lns| - 1], lns[|lns| - 1];
      ReachableIs(ln, r);
      assert lns == before + [ln];
      HitsAreReached(before, r);
      var hits := ReachableListeners(before, r);
      ReachableGrow(before, ln, r);
      LocalGrow(hits, ln);
      OneMoreReached(before, ln, r, false, hits);
      OneMoreReached(before, ln, r, true, InHostNamespace(hits));
      assert hits + [] == hits && InHostNamespace(hits) + [] == InHostNamespace(hits);
    }
  }

  /** The listener a record is matched to: none if and only if it can have reached none; otherwise the first
      it can have reached in the host's own network namespace, or the first of all, with a note, if there is
      none there.  The count is of all it can have reached. */
  lemma {:induction false} PickIsFirst(h: HostEntry, r: Record)
    ensures var p, lns := PickListener(h, r), h.listeners;
            && p.count == |set i: nat | i < |lns| && CanReach(lns[i], r, false)|
            && (p.listener == None <==> !Reached(lns, r, false))
            && p.otherNamespace == (Reached(lns, r, false) && !Reached(lns, r, true))
            && (p.listener.Some? ==> FirstReached(lns, r, !p.otherNamespace, p.listener.value))
  {
    hide Reached, FirstReached, CanReach, ReachableListeners, InHostNamespace;
    HitsAreReached(h.listeners, r);
    if ReachableListeners(h.listeners, r) == [] {
      NoLocalIn();
    }
  }

  lemma {:induction false} NoLocalIn()
    ensures InHostNamespace([]) == []
  {
  }

  // ---- Conservation ----

  // Rows that reach a verdict.
  function Judged(rows: seq<Row>): nat {
    if rows == [] then 0
    else Judged(rows[..|rows| - 1]) + One(Counted(rows[|rows| - 1].status))
  }

  // Sum of the endpoints over all hosts.
  ghost function Endpoints(m: map<string, Tally>): nat {
    if m == map[] then 0 else var k :| k in m; m[k].endpoints + Endpoints(m - {k})
  }

  lemma {:induction false} EndpointsWithout(m: map<string, Tally>, k: string)
    requires k in m
    ensures Endpoints(m) == m[k].endpoints + Endpoints(m - {k})
    decreases |m|
  {
    var j :| j in m && Endpoints(m) == m[j].endpoints + Endpoints(m - {j});
    if j != k {
      EndpointsWithout(m - {j}, k);
      EndpointsWithout(m - {k}, j);
      assert m - {j} - {k} == m - {k} - {j};
    }
  }

  lemma {:induction false} EndpointsBump(m: map<string, Tally>, k: string, row: Row)
    ensures Endpoints(m[k := Bump(TallyFor(m, k), row)]) == Endpoints(m) + 1
  {
    var m1 := m[k := Bump(TallyFor(m, k), row)];
    EndpointsWithout(m1, k);
    if k in m {
      EndpointsWithout(m, k);
      assert m1 - {k} == m - {k};
    } else {
      assert m1 - {k} == m;
    }
  }

  // Every row that reaches a verdict names its host, as every row of the join does.
  ghost predicate Hosted(rows: seq<Row>) {
    forall i | 0 <= i < |rows| && Counted(rows[i].status) :: rows[i].host.Some?
  }

  lemma {:induction false} JoinRowsAreHosted(rules: Rules, hosts: seq<HostEntry>, rs: seq<Record>)
    ensures |Rows(rules, hosts, rs)| == |rs| && Hosted(Rows(rules, hosts, rs))
    decreases |rs|
  {
    hide HostRow, Search;
    if rs != [] {
      JoinRowsAreHosted(rules, hosts, rs[..|rs| - 1]);
      var r := rs[|rs| - 1];
      RowCases(rules, hosts, r);
      match Search(hosts, r.endpoint)
      case Unique(i, basis, narrowed) => HostRowShape(rules, hosts[i], basis, narrowed, r);
      case _ =>
    }
  }

  // The counters account for every one of `rows` rows, `judged` of which reach a verdict.
  ghost predicate AddsUp(t: Rollup, rows: nat, judged: nat) {
    && |t.byStatus| == |t.byClass| == rows
    && t.byStatus[Matched] + t.byStatus[NoServiceScan] == judged
    && |t.states| == judged && |t.gapStates| == judged && Endpoints(t.perHost) == judged
  }

  lemma {:induction false} CountAddsUp(t: Rollup, row: Row, rows: nat, judged: nat)
    requires AddsUp(t, rows, judged) && (Counted(row.status) ==> row.host.Some?)
    ensures AddsUp(Count(t, row), rows + 1, judged + One(Counted(row.status)))
    ensures Count(t, row).matches == t.matches + [row]
  {
    hide Endpoints, Bump;
    if Counted(row.status) {
      EndpointsBump(t.perHost, row.host.value, row);
    }
  }

  lemma {:induction false} NothingAddsUp()
    ensures Counts([]).matches == [] && AddsUp(Counts([]), 0, 0) && Judged([]) == 0
  {
  }

  lemma {:induction false} CountsAddUp(rows: seq<Row>)
    requires Hosted(rows)
    ensures Counts(rows).matches == rows && AddsUp(Counts(rows), |rows|, Judged(rows))
    decreases |rows|
  {
    if rows == [] {
      NothingAddsUp();
    } else {
      hide AddsUp, Count, Counts, Counted;
      var n := |rows| - 1;
      var before, row := rows[..n], rows[n];
      assert rows == before + [row];
      CountsAddUp(before);
      CountsGrow(before, row);
      CountAddsUp(Counts(before), row, n, Judged(before));
    }
  }

  /** Conservation: every valid record has one status and one class; and the records that match a listener or
      meet a host without a service scan are exactly those behind `states`, `by_gap_state` and the hosts'
      endpoints. */
  lemma {:induction false} NothingIsLost(rules: Rules, hosts: seq<HostEntry>, rs: seq<Record>)
    ensures var t := Counts(Rows(rules, hosts, rs));
            var judged := t.byStatus[Matched] + t.byStatus[NoServiceScan];
            && |t.matches| == |t.byStatus| == |t.byClass| == |rs|
            && |t.states| == |t.gapStates| == Endpoints(t.perHost) == judged
  {
    hide Counts, Rows;
    JoinRowsAreHosted(rules, hosts, rs);
    CountsAddUp(Rows(rules, hosts, rs));
  }

  // ---- What a host's entry counts ----

  // The tally of the rows of one host.
  function TallyOf(rows: seq<Row>, host: string): Tally {
    if rows == [] then NO_TALLY
    else
      var n := |rows| - 1;
      var t := TallyOf(rows[..n], host);
      if Counted(rows[n].status) && rows[n].host == Some(host) then Bump(t, rows[n]) else t
  }

  function Merge(a: Tally, b: Tally): Tally {
    Tally(a.endpoints + b.endpoints, a.byClass + b.byClass, a.capableButClassical + b.capableButClassical,
          a.configuredButClassical + b.configuredButClassical, a.stale + b.stale)
  }

  lemma {:induction false} PerHostIsTally(rows: seq<Row>, host: string)
    ensures TallyFor(Counts(rows).perHost, host) == TallyOf(rows, host)
    ensures host in Counts(rows).perHost <==> TallyOf(rows, host).endpoints > 0
    decreases |rows|
  {
    if rows != [] {
      PerHostIsTally(rows[..|rows| - 1], host);
    }
  }

  lemma {:induction false} TallyGrows(rows: seq<Row>, row: Row, host: string)
    ensures TallyOf(rows + [row], host) ==
            if Counted(row.status) && row.host == Some(host) then Bump(TallyOf(rows, host), row)
            else TallyOf(rows, host)
  {
    hide Bump, Counted;
    assert (rows + [row])[..|rows|] == rows;
  }

  lemma {:induction false} MergeNothing(a: Tally, host: string)
    ensures Merge(a, TallyOf([], host)) == a
  {
  }

  lemma {:induction false} TallyAppend(a: seq<Row>, b: seq<Row>, host: string)
    ensures TallyOf(a + b, host) == Merge(TallyOf(a, host), TallyOf(b, host))
    decreases |b|
  {
    hide TallyOf, Bump, Merge, Counted;
    if b == [] {
      assert a + b == a;
      MergeNothing(TallyOf(a, host), host);
    } else {
      var n := |b| - 1;
      TallyAppend(a, b[..n], host);
      TallyGrows(a + b[..n], b[n], host);
      TallyGrows(b[..n], b[n], host);
      assert (a + b[..n]) + [b[n]] == a + b && b[..n] + [b[n]] == b;
      MergeBump(TallyOf(a, host), TallyOf(b[..n], host), b[n]);
    }
  }

  lemma {:induction false} MergeBump(a: Tally, b: Tally, row: Row)
    ensures Merge(a, Bump(b, row)) == Bump(Merge(a, b), row)
  {
    assert a.byClass + (b.byClass + multiset{row.cls}) == (a.byClass + b.byClass) + multiset{row.cls};
  }

  lemma {:induction false} RowsAppend(rules: Rules, hosts: seq<HostEntry>, a: seq<Record>, b: seq<Record>)
    ensures Rows(rules, hosts, a + b) == Rows(rules, hosts, a) + Rows(rules, hosts, b)
    decreases |b|
  {
    hide RowOf;
    if b == [] {
      assert a + b == a;
    } else {
      var n := |b| - 1;
      assert (a + b)[..|a| + n] == a + b[..n];
      RowsAppend(rules, hosts, a, b[..n]);
    }
  }

  // Every counter of `t` is the sum of those of `a` and `b`.
  ghost predicate IsSum(t: Rollup, a: Rollup, b: Rollup) {
    && t.matches == a.matches + b.matches && t.byStatus == a.byStatus + b.byStatus
    && t.byClass == a.byClass + b.byClass && t.states == a.states + b.states
    && t.gapStates == a.gapStates + b.gapStates && t.stale == a.stale + b.stale
  }

  lemma {:induction false} CountKeepsSum(t: Rollup, a: Rollup, b: Rollup, row: Row)
    requires IsSum(t, a, b)
    ensures IsSum(Count(t, row), a, Count(b, row))
  {
    hide Bump, TallyFor, Counted;
    assert a.matches + (b.matches + [row]) == (a.matches + b.matches) + [row];
    OneMore(a.byStatus, b.byStatus, row.status);
    OneMore(a.byClass, b.byClass, row.cls);
    OneMore(a.states, b.states, (row.capable, row.configured, row.cls));
    OneMore(a.gapStates, b.gapStates, (row.protocol, row.state, row.cls));
  }

  lemma {:induction false} OneMore<T>(a: multiset<T>, b: multiset<T>, x: T)
    ensures (a + b) + multiset{x} == a + (b + multiset{x})
  {
  }

  lemma {:induction false} CountsAppend(a: seq<Row>, b: seq<Row>)
    ensures IsSum(Counts(a + b), Counts(a), Counts(b))
    decreases |b|
  {
    hide Counts, Count, IsSum;
    if b == [] {
      assert a + b == a;
      EmptySum(Counts(a));
    } else {
      var n := |b| - 1;
      CountsAppend(a, b[..n]);
      CountKeepsSum(Counts(a + b[..n]), Counts(a), Counts(b[..n]), b[n]);
      assert a + b == (a + b[..n]) + [b[n]] && b == b[..n] + [b[n]];
      CountsGrow(a + b[..n], b[n]);
      CountsGrow(b[..n], b[n]);
    }
  }

  lemma {:induction false} EmptySum(t: Rollup)
    ensures IsSum(t, t, Counts([]))
  {
    assert t.matches + [] == t.matches;
  }

  /** The rollup of a concatenation of record files is the sum of their rollups, host by host as well. */
  lemma {:induction false} JoinAppends(rules: Rules, hosts: seq<HostEntry>, a: seq<Record>, b: seq<Record>,
                                       host: string)
    ensures var t, ta, tb :=
              Counts(Rows(rules, hosts, a + b)), Counts(Rows(rules, hosts, a)), Counts(Rows(rules, hosts, b));
            && IsSum(t, ta, tb)
            && TallyFor(t.perHost, host) == Merge(TallyFor(ta.perHost, host), TallyFor(tb.perHost, host))
  {
    hide Counts, Rows, TallyOf, TallyFor;
    var ra, rb := Rows(rules, hosts, a), Rows(rules, hosts, b);
    RowsAppend(rules, hosts, a, b);
    CountsAppend(ra, rb);
    TallyAppend(ra, rb, host);
    PerHostIsTally(ra, host);
    PerHostIsTally(rb, host);
    PerHostIsTally(ra + rb, host);
  }

  // ---- Report order ----

  // The hosts at some positions.
  function At(hosts: seq<HostEntry>, at: seq<nat>): seq<HostEntry>
    requires InRange(hosts, at)
  {
    if at == [] then [] else [hosts[at[0]]] + At(hosts, at[1..])
  }

  function Filter(hosts: seq<HostEntry>, p: HostEntry -> bool): seq<HostEntry> {
    if hosts == [] then []
    else Filter(hosts[..|hosts| - 1], p) + if p(hosts[|hosts| - 1]) then [hosts[|hosts| - 1]] else []
  }

  lemma {:induction false} AtAppend(hosts: seq<HostEntry>, a: seq<nat>, b: seq<nat>)
    requires InRange(hosts, a) && InRange(hosts, b)
    ensures At(hosts, a + b) == At(hosts, a) + At(hosts, b)
    decreases |a|
  {
    if a == [] {
      assert a + b == b;
    } else {
      assert (a + b)[1..] == a[1..] + b;
      AtAppend(hosts, a[1..], b);
    }
  }

  lemma {:induction false} AtOne(hosts: seq<HostEntry>, i: nat)
    requires i < |hosts|
    ensures At(hosts, [i]) == [hosts[i]]
  {
    assert [i][1..] == [];
  }

  lemma {:induction false} AscendingIsFilter(hosts: seq<HostEntry>, s: set<nat>, p: HostEntry -> bool, n: nat)
    requires n <= |hosts| && forall i: nat | i < n :: i in s <==> p(hosts[i])
    ensures At(hosts, Ascending(s, n)) == Filter(hosts[..n], p)
    decreases n
  {
    if n > 0 {
      AscendingIsFilter(hosts, s, p, n - 1);
      assert hosts[..n][..n - 1] == hosts[..n - 1] && hosts[..n][n - 1] == hosts[n - 1];
      var last: seq<nat> := if n - 1 in s then [n - 1] else [];
      AtAppend(hosts, Ascending(s, n - 1), last);
      AtOne(hosts, n - 1);
      hide At;
      assert Ascending(s, n) == Ascending(s, n - 1) + last;
      assert At(hosts, last) == if p(hosts[n - 1]) then [hosts[n - 1]] else [];
    }
  }

  lemma {:induction false} FilterCounts(hosts: seq<HostEntry>, p: HostEntry -> bool, h: HostEntry)
    ensures multiset(Filter(hosts, p))[h] == if p(h) then multiset(hosts)[h] else 0
    decreases |hosts|
  {
    if hosts != [] {
      var n := |hosts| - 1;
      FilterCounts(hosts[..n], p, h);
      assert hosts == hosts[..n] + [hosts[n]];
    }
  }

  // The same reports, in some other order.
  ghost predicate Reordered(a: seq<HostEntry>, b: seq<HostEntry>) {
    multiset(a) == multiset(b)
  }

  lemma {:induction false} FilterReordered(a: seq<HostEntry>, b: seq<HostEntry>, p: HostEntry -> bool)
    requires Reordered(a, b)
    ensures Reordered(Filter(a, p), Filter(b, p))
  {
    forall h ensures multiset(Filter(a, p))[h] == multiset(Filter(b, p))[h] {
      FilterCounts(a, p, h);
      FilterCounts(b, p, h);
    }
  }

  lemma {:induction false} AtLength(hosts: seq<HostEntry>, at: seq<nat>)
    requires InRange(hosts, at)
    ensures |At(hosts, at)| == |at| && (at != [] ==> At(hosts, at)[0] == hosts[at[0]])
    decreases |at|
  {
    if at != [] {
      AtLength(hosts, at[1..]);
    }
  }

  function Names(hosts: seq<HostEntry>): seq<string> {
    if hosts == [] then [] else [hosts[0].hostname] + Names(hosts[1..])
  }

  lemma {:induction false} NamesOfAt(hosts: seq<HostEntry>, at: seq<nat>)
    requires InRange(hosts, at)
    ensures Hostnames(hosts, at) == Names(At(hosts, at))
    decreases |at|
  {
    if at != [] {
      NamesOfAt(hosts, at[1..]);
      assert At(hosts, at)[1..] == At(hosts, at[1..]);
    }
  }

  lemma {:induction false} NamesWithout(a: seq<HostEntry>, i: nat)
    requires i < |a|
    ensures multiset(Names(a)) == multiset(Names(a[..i] + a[i + 1..])) + multiset{a[i].hostname}
    decreases i
  {
    var rest := a[..i] + a[i + 1..];
    if i == 0 {
      assert rest == a[1..];
    } else {
      assert rest[1..] == a[1..][..i - 1] + a[1..][i..] && rest[0] == a[0];
      NamesWithout(a[1..], i - 1);
    }
  }

  lemma {:induction false} WithoutOne(a: seq<HostEntry>, i: nat)
    requires i < |a|
    ensures multiset(a[..i] + a[i + 1..]) == multiset(a) - multiset{a[i]}
  {
    assert a == a[..i] + [a[i]] + a[i + 1..];
  }

  lemma {:induction false} NamesReordered(a: seq<HostEntry>, b: seq<HostEntry>)
    requires Reordered(a, b)
    ensures multiset(Names(a)) == multiset(Names(b))
    decreases |a|
  {
    hide Names;
    assert |a| == |multiset(a)| == |multiset(b)| == |b|;
    if a == [] {
      assert b == [];
    } else {
      assert a == [a[0]] + a[1..] && a[0] in multiset(b);
      var i :| 0 <= i < |b| && b[i] == a[0];
      var rest := b[..i] + b[i + 1..];
      WithoutOne(b, i);
      WithoutOne(a, 0);
      assert a[..0] + a[1..] == a[1..];
      NamesWithout(a, 0);
      NamesWithout(b, i);
      NamesReordered(a[1..], rest);
    }
  }

  // The hosts of a tier, and those of it that hold the observed certificate.
  function Tier(hosts: seq<HostEntry>, o: Observation, b: Basis): seq<HostEntry> {
    Filter(hosts, h => Answers(h, o, b))
  }

  function Narrowed(hosts: seq<HostEntry>, o: Observation, b: Basis): seq<HostEntry> {
    Filter(hosts, h => Answers(h, o, b) && Answers(h, o, Certificate))
  }

  lemma {:induction false} TierIsHits(hosts: seq<HostEntry>, o: Observation, b: Basis)
    ensures At(hosts, Ascending(Hits(hosts, o, b), |hosts|)) == Tier(hosts, o, b)
    ensures At(hosts, Ascending(Hits(hosts, o, b) * Hits(hosts, o, Certificate), |hosts|)) == Narrowed(hosts, o, b)
  {
    assert hosts[..|hosts|] == hosts;
    AscendingIsFilter(hosts, Hits(hosts, o, b), h => Answers(h, o, b), |hosts|);
    AscendingIsFilter(hosts, Hits(hosts, o, b) * Hits(hosts, o, Certificate),
                      h => Answers(h, o, b) && Answers(h, o, Certificate), |hosts|);
  }

  // What the search comes to, in hosts instead of positions.
  datatype Verdict = Single(host: HostEntry, basis: Basis, narrowed: bool) | Several(names: seq<string>) | Nobody

  function VerdictOf(hosts: seq<HostEntry>, m: Match): Verdict
    requires MatchInRange(hosts, m)
  {
    match m
    case NoMatch => Nobody
    case Ambiguous(c) => Several(Sorting.Sorted(Hostnames(hosts, c)))
    case Unique(i, basis, narrowed) => Single(hosts[i], basis, narrowed)
  }

  function Verdicts(hosts: seq<HostEntry>, o: Observation, tiers: seq<Basis>): Verdict {
    if tiers == [] then Nobody
    else
      var hits, narrowed := Tier(hosts, o, tiers[0]), Narrowed(hosts, o, tiers[0]);
      if |hits| == 1 then Single(hits[0], tiers[0], false)
      else if |hits| > 1 then
        if |narrowed| == 1 && tiers[0] != Certificate then Single(narrowed[0], tiers[0], true)
        else Several(Sorting.Sorted(Names(hits)))
      else Verdicts(hosts, o, tiers[1..])
  }

  lemma {:induction false} SearchIsVerdict(hosts: seq<HostEntry>, o: Observation, tiers: seq<Basis>)
    ensures MatchInRange(hosts, SearchFrom(hosts, o, tiers))
    ensures VerdictOf(hosts, SearchFrom(hosts, o, tiers)) == Verdicts(hosts, o, tiers)
    decreases |tiers|
  {
    hide Hits, Ascending, Filter, At, Names, Sorting.Sorted, Hostnames;
    SearchInRange(hosts, o, tiers);
    if tiers != [] {
      var b := tiers[0];
      var hits := Ascending(Hits(hosts, o, b), |hosts|);
      var narrowed := Ascending(Hits(hosts, o, b) * Hits(hosts, o, Certificate), |hosts|);
      TierIsHits(hosts, o, b);
      AtLength(hosts, hits);
      AtLength(hosts, narrowed);
      NamesOfAt(hosts, hits);
      SearchIsVerdict(hosts, o, tiers[1..]);
    }
  }

  lemma {:induction false} SingleReordered(a: seq<HostEntry>, b: seq<HostEntry>)
    requires Reordered(a, b)
    ensures |a| == |b| && (|a| == 1 ==> a[0] == b[0])
  {
    assert |a| == |multiset(a)| == |multiset(b)| == |b|;
    if |a| == 1 {
      assert a == [a[0]] && b == [b[0]];
      assert b[0] in multiset(a);
    }
  }

  lemma {:induction false} VerdictsReordered(a: seq<HostEntry>, b: seq<HostEntry>, o: Observation, tiers: seq<Basis>)
    requires Reordered(a, b)
    ensures Verdicts(a, o, tiers) == Verdicts(b, o, tiers)
    decreases |tiers|
  {
    hide Filter, Names, Sorting.Sorted;
    if tiers != [] {
      var t := tiers[0];
      FilterReordered(a, b, h => Answers(h, o, t));
      FilterReordered(a, b, h => Answers(h, o, t) && Answers(h, o, Certificate));
      SingleReordered(Tier(a, o, t), Tier(b, o, t));
      SingleReordered(Narrowed(a, o, t), Narrowed(b, o, t));
      NamesReordered(Tier(a, o, t), Tier(b, o, t));
      Sorting.OrderForgotten(Names(Tier(a, o, t)), Names(Tier(b, o, t)));
      VerdictsReordered(a, b, o, tiers[1..]);
    }
  }

  function VerdictRow(rules: Rules, v: Verdict, r: Record): Row {
    match v
    case Nobody => Blank(r)
    case Several(names) => Blank(r).(status := AmbiguousHost, candidates := names)
    case Single(h, basis, narrowed) => HostRow(rules, h, basis, narrowed, r)
  }

  lemma {:induction false} RowIsVerdict(rules: Rules, hosts: seq<HostEntry>, r: Record)
    ensures RowOf(rules, hosts, r) == VerdictRow(rules, Verdicts(hosts, r.endpoint, TIERS), r)
  {
    hide SearchFrom, Verdicts, HostRow, Sorting.Sorted, Hostnames;
    SearchIsVerdict(hosts, r.endpoint, TIERS);
    RowCases(rules, hosts, r);
  }

  /** The join does not depend on the order the reports come in. */
  lemma {:induction false} ReportOrderForgotten(rules: Rules, a: seq<HostEntry>, b: seq<HostEntry>, rs: seq<Record>)
    requires Reordered(a, b)
    ensures Counts(Rows(rules, a, rs)) == Counts(Rows(rules, b, rs))
  {
    hide Counts;
    RowsReordered(rules, a, b, rs);
  }

  lemma {:induction false} RowsReordered(rules: Rules, a: seq<HostEntry>, b: seq<HostEntry>, rs: seq<Record>)
    requires Reordered(a, b)
    ensures Rows(rules, a, rs) == Rows(rules, b, rs)
    decreases |rs|
  {
    hide RowOf, Verdicts, VerdictRow, Reordered;
    if rs != [] {
      var r := rs[|rs| - 1];
      RowsReordered(rules, a, b, rs[..|rs| - 1]);
      RowIsVerdict(rules, a, r);
      RowIsVerdict(rules, b, r);
      VerdictsReordered(a, b, r.endpoint, TIERS);
    }
  }
}
