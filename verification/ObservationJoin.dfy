/**
  The join: every valid observation is matched to a host and a listening service and counted, in one loop
  over the records.  A counter is a multiset of what it counted.
 */
module ObservationJoin {
  import opened Options
  import opened HostIndex
  import Sorting

  // A record; `transport` is its own or its protocol's, `cls` what classifying the negotiated group gave.
  datatype Record = Record(
    position: int, endpoint: Observation, protocol: string, transport: string, port: int, cls: string,
    observedAt: Option<int>)

  // The age (in seconds) that is stale.
  datatype Rules = Rules(maxAge: int)

  datatype Status = UnmatchedHost | AmbiguousHost | Matched | UnmatchedListener | NoServiceScan

  datatype Row = Row(
    position: int, cls: string, protocol: string, status: Status, host: Option<string>, basis: Option<(Basis, bool)>,
    candidates: seq<string>, listener: Option<Listener>, listeners: nat, otherNamespace: bool,
    capable: Option<bool>, configured: Option<bool>, state: Option<string>,
    certOnHost: Option<bool>, stale: Option<bool>)

  function Blank(r: Record): Row {
    Row(r.position, r.cls, r.protocol, UnmatchedHost, None, None, [], None, 0, false, None, None, None, None, None)
  }

  // ---- One record ----

  // Only wildcard and specific binds are reachable; a specific one must be on the observed address.
  predicate Reachable(ln: Listener, r: Record) {
    && ln.protocol == r.transport && ln.port == r.port
    && (ln.bindScope == "any" || ln.bindScope == "specific")
    && !(ln.bindScope == "specific" && r.endpoint.ip != "" && ln.address != r.endpoint.ip)
  }

  function ReachableListeners(lns: seq<Listener>, r: Record): seq<Listener> {
    if lns == [] then []
    else (if Reachable(lns[0], r) then [lns[0]] else []) + ReachableListeners(lns[1..], r)
  }

  function InHostNamespace(lns: seq<Listener>): seq<Listener> {
    if lns == [] then [] else (if lns[0].hostNamespace then [lns[0]] else []) + InHostNamespace(lns[1..])
  }

  datatype Pick = Pick(listener: Option<Listener>, count: nat, otherNamespace: bool)

  function PickListener(h: HostEntry, r: Record): Pick {
    var hits := ReachableListeners(h.listeners, r);
    var local := InHostNamespace(hits);
    if hits == [] then Pick(None, 0, false)
    else if local != [] then Pick(Some(local[0]), |hits|, false)
    else Pick(Some(hits[0]), |hits|, true)
  }

  function Capable(h: HostEntry, ln: Option<Listener>, protocol: string): Option<bool> {
    if protocol == "ssh" then h.sshCapable
    else if protocol == "ikev2" then h.ikeCapable
    else if ln.Some? then ln.value.libraryCapable else None
  }

  function Configured(h: HostEntry, ln: Option<Listener>, protocol: string): Option<bool> {
    if protocol == "ssh" then h.sshConfigured
    else if protocol == "ikev2" then h.ikeConfigured
    else if ln.Some? && ln.value.goDefaultHybrid then Some(true) else h.tlsConfigured
  }

  // gap.classify
  function Gap(capable: Option<bool>, configured: Option<bool>): string {
    if capable == Some(true) then
      if configured == Some(true) then "deployed"
      else if configured == Some(false) then "capable_not_configured"
      else "unknown"
    else if capable == Some(false) then
      if configured == Some(true) then "configured_not_capable" else "not_capable"
    else "unknown"
  }

  predicate Counted(s: Status) {
    s == Matched || s == NoServiceScan
  }

  function Stale(rules: Rules, h: HostEntry, r: Record): Option<bool> {
    if h.generatedAt.None? || r.observedAt.None? then None
    else
      var age := h.generatedAt.value - r.observedAt.value;
      Some((if age < 0 then -age else age) > rules.maxAge)
  }

  // The row of a record that is about host h.
  function HostRow(rules: Rules, h: HostEntry, basis: Basis, narrowed: bool, r: Record): Row {
    var scanned := r.protocol == "ssh" || r.protocol == "ikev2" || h.serviceScan;
    var pick := if scanned then PickListener(h, r) else Pick(None, 0, false);
    var status :=
      if pick.listener.Some? then Matched else if h.serviceScan then UnmatchedListener else NoServiceScan;
    var capable, configured := Capable(h, pick.listener, r.protocol), Configured(h, pick.listener, r.protocol);
    var c := Counted(status);
    Row(r.position, r.cls, r.protocol, status, Some(h.hostname), Some((basis, narrowed)), [],
        pick.listener, pick.count, pick.otherNamespace,
        if c then capable else None, if c then configured else None,
        if c then Some(Gap(capable, configured)) else None,
        if r.endpoint.cert != "" then Some(r.endpoint.cert in h.certs) else None, Stale(rules, h, r))
  }

  ghost predicate InRange(hosts: seq<HostEntry>, at: seq<nat>) {
    forall i | 0 <= i < |at| :: at[i] < |hosts|
  }

  ghost predicate MatchInRange(hosts: seq<HostEntry>, m: Match) {
    match m
    case NoMatch => true
    case Ambiguous(c) => InRange(hosts, c)
    case Unique(i, _, _) => i < |hosts|
  }

  function Hostnames(hosts: seq<HostEntry>, at: seq<nat>): seq<string>
    requires InRange(hosts, at)
  {
    if at == [] then [] else [hosts[at[0]].hostname] + Hostnames(hosts, at[1..])
  }

  function RowOf(rules: Rules, hosts: seq<HostEntry>, r: Record): Row {
    SearchInRange(hosts, r.endpoint, TIERS);
    match Search(hosts, r.endpoint)
    case NoMatch => Blank(r)
    case Ambiguous(c) => Blank(r).(status := AmbiguousHost, candidates := Sorting.Sorted(Hostnames(hosts, c)))
    case Unique(i, basis, narrowed) => HostRow(rules, hosts[i], basis, narrowed, r)
  }

  lemma {:induction false} SearchInRange(hosts: seq<HostEntry>, o: Observation, tiers: seq<Basis>)
    ensures MatchInRange(hosts, SearchFrom(hosts, o, tiers))
    decreases |tiers|
  {
    hide Hits, Ascending;
    if tiers != [] {
      SearchInRange(hosts, o, tiers[1..]);
    }
  }

  function Rows(rules: Rules, hosts: seq<HostEntry>, rs: seq<Record>): seq<Row> {
    if rs == [] then []
    else Rows(rules, hosts, rs[..|rs| - 1]) + [RowOf(rules, hosts, rs[|rs| - 1])]
  }

  // ---- The counters ----

  datatype Tally = Tally(endpoints: nat, byClass: multiset<string>, capableButClassical: nat,
                         configuredButClassical: nat, stale: nat)

  const NO_TALLY := Tally(0, multiset{}, 0, 0, 0)

  function One(b: bool): nat {
    if b then 1 else 0
  }

  function Bump(t: Tally, row: Row): Tally {
    Tally(t.endpoints + 1, t.byClass + multiset{row.cls},
          t.capableButClassical + One(row.cls == "classical" && row.capable == Some(true)),
          t.configuredButClassical + One(row.cls == "classical" && row.configured == Some(true)),
          t.stale + One(row.stale == Some(true)))
  }

  datatype Rollup = Rollup(
    matches: seq<Row>, byStatus: multiset<Status>, byClass: multiset<string>,
    states: multiset<(Option<bool>, Option<bool>, string)>, gapStates: multiset<(string, Option<string>, string)>,
    perHost: map<string, Tally>, stale: nat)

  const EMPTY := Rollup([], multiset{}, multiset{}, multiset{}, multiset{}, map[], 0)

  function TallyFor(perHost: map<string, Tally>, host: string): Tally {
    if host in perHost then perHost[host] else NO_TALLY
  }

  // One row counted.
  function Count(t: Rollup, row: Row): Rollup {
    var t1 := t.(matches := t.matches + [row], byStatus := t.byStatus + multiset{row.status},
                 byClass := t.byClass + multiset{row.cls}, stale := t.stale + One(row.stale == Some(true)));
    if Counted(row.status) && row.host.Some? then
      t1.(states := t.states + multiset{(row.capable, row.configured, row.cls)},
          gapStates := t.gapStates + multiset{(row.protocol, row.state, row.cls)},
          perHost := t.perHost[row.host.value := Bump(TallyFor(t.perHost, row.host.value), row)])
    else t1
  }

  function Counts(rows: seq<Row>): Rollup {
    if rows == [] then EMPTY else Count(Counts(rows[..|rows| - 1]), rows[|rows| - 1])
  }

  // ---- The loop ----

  method IndexReports(reports: seq<HostEntry>) returns (index: Index)
    ensures index.Valid() && index.hosts == reports
  {
    index := new Index();
    var i := 0;
    while i < |reports|
      invariant i <= |reports| && index.Valid() && index.hosts == reports[..i]
    {
      index.Add(reports[i]);
      assert reports[..i + 1] == reports[..i] + [reports[i]];
      i := i + 1;
    }
    assert reports[..i] == reports;
  }

  /** The join's loop over the valid records. */
  method JoinObservations(rules: Rules, index: Index, rs: seq<Record>) returns (t: Rollup)
    requires index.Valid()
    ensures t == Counts(Rows(rules, index.hosts, rs))
  {
    hide Search, HostRow, Hostnames, Sorting.Sorted, Bump, RowOf, Rows, Counts, TallyFor;
    NothingJoined(rules, index.hosts);
    assert rs[..0] == [];
    var matches: seq<Row> := [];
    var byStatus: multiset<Status> := multiset{};
    var byClass: multiset<string> := multiset{};
    var states: multiset<(Option<bool>, Option<bool>, string)> := multiset{};
    var gapStates: multiset<(string, Option<string>, string)> := multiset{};
    var perHost: map<string, Tally> := map[];
    var stale: nat := 0;
    var i := 0;
    while i < |rs|
      invariant i <= |rs|
      invariant matches == Rows(rules, index.hosts, rs[..i])
      invariant Rollup(matches, byStatus, byClass, states, gapStates, perHost, stale) == Counts(matches)
    {
      var r := rs[i];
      byClass := byClass + multiset{r.cls};
      var m := index.Candidates(r.endpoint);
      RowCases(rules, index.hosts, r);
      CountsGrow(matches, RowOf(rules, index.hosts, r));
      RowsGrow(rules, index.hosts, rs, i);
      var row := Blank(r);
      match m {
        case NoMatch =>
        case Ambiguous(c) =>
          row := row.(status := AmbiguousHost, candidates := Sorting.Sorted(Hostnames(index.hosts, c)));
        case Unique(at, basis, narrowed) =>
          var h := index.hosts[at];
          row := HostRow(rules, h, basis, narrowed, r);
          stale := stale + One(row.stale == Some(true));
          HostRowShape(rules, h, basis, narrowed, r);
          if Counted(row.status) {
            gapStates := gapStates + multiset{(row.protocol, row.state, row.cls)};
            perHost := perHost[h.hostname := Bump(TallyFor(perHost, h.hostname), row)];
            states := states + multiset{(row.capable, row.configured, row.cls)};
          }
      }
      assert row == RowOf(rules, index.hosts, r);
      byStatus := byStatus + multiset{row.status};
      matches := matches + [row];
      i := i + 1;
    }
    assert rs[..i] == rs;
    t := Rollup(matches, byStatus, byClass, states, gapStates, perHost, stale);
  }

  lemma {:induction false} NothingJoined(rules: Rules, hosts: seq<HostEntry>)
    ensures Rows(rules, hosts, []) == [] && Counts([]) == EMPTY
  {
  }

  lemma {:induction false} RowsGrow(rules: Rules, hosts: seq<HostEntry>, rs: seq<Record>, i: nat)
    requires i < |rs|
    ensures Rows(rules, hosts, rs[..i + 1]) == Rows(rules, hosts, rs[..i]) + [RowOf(rules, hosts, rs[i])]
  {
    hide RowOf;
    assert rs[..i + 1][..i] == rs[..i];
  }

  lemma {:induction false} CountsGrow(rows: seq<Row>, row: Row)
    ensures Counts(rows + [row]) == Count(Counts(rows), row)
  {
    hide Count;
    assert (rows + [row])[..|rows|] == rows;
  }

  lemma {:induction false} RowCases(rules: Rules, hosts: seq<HostEntry>, r: Record)
    ensures MatchInRange(hosts, Search(hosts, r.endpoint))
    ensures RowOf(rules, hosts, r) ==
            match Search(hosts, r.endpoint)
            case NoMatch => Blank(r)
            case Ambiguous(c) => Blank(r).(status := AmbiguousHost, candidates := Sorting.Sorted(Hostnames(hosts, c)))
            case Unique(i, basis, narrowed) => HostRow(rules, hosts[i], basis, narrowed, r)
  {
    hide SearchFrom, HostRow, Sorting.Sorted;
    SearchInRange(hosts, r.endpoint, TIERS);
  }

  lemma {:induction false} HostRowShape(rules: Rules, h: HostEntry, basis: Basis, narrowed: bool, r: Record)
    ensures var row := HostRow(rules, h, basis, narrowed, r);
            row.host == Some(h.hostname) && row.cls == r.cls && row.protocol == r.protocol
  {
  }
}
