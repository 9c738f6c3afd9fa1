/** What the rows of the join say of hosts and listeners, and what its counters count. */
module JoinRows {
  import opened Options
  import opened HostIndex
  import opened ObservationJoin
  import opened JoinLaws
  import Sorting

  // ---- Rows ----

  // Nothing beyond the record itself.
  ghost predicate Silent(row: Row) {
    && row.host == None && row.basis == None && row.listener == None && row.listeners == 0 && !row.otherNamespace
    && row.capable == None && row.configured == None && row.state == None
    && row.certOnHost == None && row.stale == None
  }

  // The verdict on a host's capability and its configuration.
  ghost predicate IsVerdict(capable: Option<bool>, configured: Option<bool>, state: string) {
    && (state == "deployed" <==> capable == Some(true) && configured == Some(true))
    && (state == "capable_not_configured" <==> capable == Some(true) && configured == Some(false))
    && (state == "configured_not_capable" <==> capable == Some(false) && configured == Some(true))
    && (state == "not_capable" <==> capable == Some(false) && configured != Some(true))
    && (state == "unknown" <==> capable == None || (capable == Some(true) && configured == None))
  }

  // A listener is looked for where the protocol has one of its own or the host's services were scanned.
  predicate LooksForListener(h: HostEntry, r: Record) {
    r.protocol == "ssh" || r.protocol == "ikev2" || h.serviceScan
  }

  // The listener is the first one the record can have reached, the host's own namespace preferred.
  ghost predicate TellsListener(h: HostEntry, r: Record, row: Row) {
    var found := LooksForListener(h, r) && Reached(h.listeners, r, false);
    && (row.status == Matched <==> found)
    && (row.status == UnmatchedListener <==> !found && h.serviceScan)
    && (row.status == NoServiceScan <==> !found && !h.serviceScan)
    && (row.listener.Some? <==> found)
    && row.otherNamespace == (found && !Reached(h.listeners, r, true))
    && (found ==> FirstReached(h.listeners, r, !row.otherNamespace, row.listener.value))
    && row.listeners == if found then |set i: nat | i < |h.listeners| && CanReach(h.listeners[i], r, false)| else 0
  }

  // The judgements on the service behind the endpoint, where the status calls for them.
  ghost predicate TellsService(h: HostEntry, row: Row) {
    if row.status == UnmatchedListener then row.capable == None && row.configured == None && row.state == None
    else
      && (row.protocol == "ssh" ==> row.capable == h.sshCapable && row.configured == h.sshConfigured)
      && (row.protocol == "ikev2" ==> row.capable == h.ikeCapable && row.configured == h.ikeConfigured)
      && (row.protocol != "ssh" && row.protocol != "ikev2" ==>
            match row.listener
            case None => row.capable == None && row.configured == h.tlsConfigured
            case Some(ln) =>
              && row.capable == ln.libraryCapable
              && row.configured == if ln.goDefaultHybrid then Some(true) else h.tlsConfigured)
      && row.state.Some? && IsVerdict(row.capable, row.configured, row.state.value)
  }

  // Whether the observed certificate is one of the host's, and whether the two times are too far apart.
  ghost predicate TellsTimes(rules: Rules, h: HostEntry, r: Record, row: Row) {
    && (r.endpoint.cert == "" ==> row.certOnHost == None)
    && (r.endpoint.cert != "" ==> row.certOnHost == Some(r.endpoint.cert in h.certs))
    && match (h.generatedAt, r.observedAt)
       case (Some(t1), Some(t2)) => row.stale == Some(t1 > t2 + rules.maxAge || t2 > t1 + rules.maxAge)
       case _ => row.stale == None
  }

  // The row is about host h.
  ghost predicate TellsOf(rules: Rules, h: HostEntry, basis: Basis, narrowed: bool, r: Record, row: Row) {
    && row.host == Some(h.hostname) && row.basis == Some((basis, narrowed)) && row.candidates == []
    && TellsListener(h, r, row) && TellsService(h, row) && TellsTimes(rules, h, r, row)
  }

  // The row of a record, by what ties its endpoint to the hosts.
  ghost predicate Tells(rules: Rules, hosts: seq<HostEntry>, r: Record, row: Row) {
    && row.position == r.position && row.cls == r.cls && row.protocol == r.protocol
    && exists m | Decides(hosts, r.endpoint, m) :: MatchInRange(hosts, m) &&
         match m
         case NoMatch => row.status == UnmatchedHost && row.candidates == [] && Silent(row)
         case Ambiguous(c) =>
           && row.status == AmbiguousHost && Silent(row) && Sorting.IsSorted(row.candidates)
           && multiset(row.candidates) == multiset(seq(|c|, i requires 0 <= i < |c| && InRange(hosts, c) =>
                                                           hosts[c[i]].hostname))
         case Unique(i, basis, narrowed) => TellsOf(rules, hosts[i], basis, narrowed, r, row)
  }

  lemma {:induction false} GapIsVerdict(capable: Option<bool>, configured: Option<bool>)
    ensures IsVerdict(capable, configured, Gap(capable, configured))
  {
    assert |"deployed"| == 8 && |"unknown"| == 7 && |"not_capable"| == 11;
    assert |"capable_not_configured"| == 22 && |"configured_not_capable"| == 22;
    assert "capable_not_configured"[1] == 'a' && "configured_not_capable"[1] == 'o';
    var state := Gap(capable, configured);
    match (capable, configured)
    case (Some(true), Some(true)) => assert state == "deployed";
    case (Some(true), Some(false)) => assert state == "capable_not_configured";
    case (Some(true), None) => assert state == "unknown";
    case (Some(false), Some(true)) => assert state == "configured_not_capable";
    case (Some(false), _) => assert state == "not_capable";
    case (None, _) => assert state == "unknown";
  }

  lemma {:induction false} NoneReachedCount(lns: seq<Listener>, r: Record)
    requires !Reached(lns, r, false)
    ensures |set i: nat | i < |lns| && CanReach(lns[i], r, false)| == 0
  {
    hide CanReach;
    assert (set i: nat | i < |lns| && CanReach(lns[i], r, false)) == {};
  }

  lemma {:induction false} RowTellsListener(rules: Rules, h: HostEntry, basis: Basis, narrowed: bool, r: Record)
    ensures TellsListener(h, r, HostRow(rules, h, basis, narrowed, r))
  {
    hide PickListener, Reached, FirstReached, CanReach, Capable, Configured, Stale, Gap;
    PickIsFirst(h, r);
    if !Reached(h.listeners, r, false) {
      NoneReachedCount(h.listeners, r);
    }
  }

  lemma {:induction false} RowTellsService(rules: Rules, h: HostEntry, basis: Basis, narrowed: bool, r: Record)
    ensures TellsService(h, HostRow(rules, h, basis, narrowed, r))
  {
    hide PickListener, Stale, Gap, IsVerdict;
    var row := HostRow(rules, h, basis, narrowed, r);
    if row.state.Some? {
      GapIsVerdict(row.capable, row.configured);
    }
  }

  lemma {:induction false} RowTellsTimes(rules: Rules, h: HostEntry, basis: Basis, narrowed: bool, r: Record)
    ensures TellsTimes(rules, h, r, HostRow(rules, h, basis, narrowed, r))
  {
    hide PickListener, Capable, Configured, Gap;
  }

  lemma {:induction false} HostRowTells(rules: Rules, h: HostEntry, basis: Basis, narrowed: bool, r: Record)
    ensures TellsOf(rules, h, basis, narrowed, r, HostRow(rules, h, basis, narrowed, r))
    ensures HostRow(rules, h, basis, narrowed, r).position == r.position
  {
    RowTellsListener(rules, h, basis, narrowed, r);
    RowTellsService(rules, h, basis, narrowed, r);
    RowTellsTimes(rules, h, basis, narrowed, r);
    hide TellsListener, TellsService, TellsTimes, PickListener, Capable, Configured, Stale, Gap;
  }

  lemma {:induction false} HostnamesAre(hosts: seq<HostEntry>, c: seq<nat>)
    requires InRange(hosts, c)
    ensures Hostnames(hosts, c) ==
            seq(|c|, i requires 0 <= i < |c| && InRange(hosts, c) => hosts[c[i]].hostname)
    decreases |c|
  {
    if c != [] {
      HostnamesAre(hosts, c[1..]);
    }
  }

  lemma {:induction false} RowTells(rules: Rules, hosts: seq<HostEntry>, r: Record)
    ensures Tells(rules, hosts, r, RowOf(rules, hosts, r))
  {
    hide Search, Decides, HostRow, Hostnames, Sorting.Sorted, Sorting.IsSorted, TellsOf;
    var m := Search(hosts, r.endpoint);
    SearchIsExact(hosts, r.endpoint, m);
    RowCases(rules, hosts, r);
    match m
    case NoMatch =>
    case Ambiguous(c) =>
      HostnamesAre(hosts, c);
      Sorting.SortedIsSorted(Hostnames(hosts, c));
    case Unique(i, basis, narrowed) =>
      HostRowTells(rules, hosts[i], basis, narrowed, r);
      HostRowShape(rules, hosts[i], basis, narrowed, r);
  }

  /** Every row of the join says of its record what ties it to a host, which listener it can have reached, what the
      host's report says about the service of its protocol, and how old the report is. */
  lemma {:induction false} RowsTell(rules: Rules, hosts: seq<HostEntry>, rs: seq<Record>, i: nat)
    requires i < |rs|
    ensures |Rows(rules, hosts, rs)| == |rs| && Tells(rules, hosts, rs[i], Rows(rules, hosts, rs)[i])
    decreases |rs|
  {
    hide RowOf, Tells;
    var n := |rs| - 1;
    RowsCount(rules, hosts, rs);
    if i == n {
      RowTells(rules, hosts, rs[n]);
    } else {
      RowsTell(rules, hosts, rs[..n], i);
    }
  }

  lemma {:induction false} RowsCount(rules: Rules, hosts: seq<HostEntry>, rs: seq<Record>)
    ensures |Rows(rules, hosts, rs)| == |rs|
    decreases |rs|
  {
    hide RowOf;
    if rs != [] {
      RowsCount(rules, hosts, rs[..|rs| - 1]);
    }
  }

  // ---- Counters ----

  // How many rows have the property.
  ghost function HowMany(rows: seq<Row>, p: Row -> bool): nat {
    |set i: nat | i < |rows| && p(rows[i])|
  }

  lemma {:induction false} HowManyGrows(rows: seq<Row>, row: Row, p: Row -> bool)
    ensures HowMany(rows + [row], p) == HowMany(rows, p) + if p(row) then 1 else 0
  {
    var n, more := |rows|, rows + [row];
    var before, after := set i: nat | i < n && p(rows[i]), set i: nat | i < n + 1 && p(more[i]);
    assert more[n] == row;
    assert after == before + if p(row) then {n} else {};
  }

  lemma {:induction false} NoneCounts(rows: seq<Row>, p: Row -> bool)
    ensures |rows| == 0 ==> HowMany(rows, p) == 0
  {
    var counted := set i: nat | i < |rows| && p(rows[i]);
    if |rows| == 0 {
      assert counted == {};
    }
  }

  // The row reached a verdict on a host.
  predicate Judges(row: Row) {
    (row.status == Matched || row.status == NoServiceScan) && row.host.Some?
  }

  // What a property that one more row of `rows` may have adds to its count.
  lemma {:induction false} LastCounts(rows: seq<Row>, p: Row -> bool)
    ensures rows == [] ==> HowMany(rows, p) == 0
    ensures rows != [] ==> HowMany(rows, p) ==
                           HowMany(rows[..|rows| - 1], p) + if p(rows[|rows| - 1]) then 1 else 0
  {
    hide HowMany;
    if rows != [] {
      assert rows == rows[..|rows| - 1] + [rows[|rows| - 1]];
      HowManyGrows(rows[..|rows| - 1], rows[|rows| - 1], p);
    } else {
      NoneCounts(rows, p);
    }
  }

  /** The join's counters: of each status and class, of each combination of judgements and class, of each protocol,
      state and class, and of stale rows they give the number of rows. */
  lemma {:induction false} CountersCount(rows: seq<Row>, s: Status, cls: string,
                                         key: (Option<bool>, Option<bool>, string),
                                         gap: (string, Option<string>, string))
    ensures var t := Counts(rows);
            && t.byStatus[s] == HowMany(rows, (row: Row) => row.status == s)
            && t.byClass[cls] == HowMany(rows, (row: Row) => row.cls == cls)
            && t.states[key] ==
               HowMany(rows, (row: Row) => Judges(row) && (row.capable, row.configured, row.cls) == key)
            && t.gapStates[gap] ==
               HowMany(rows, (row: Row) => Judges(row) && (row.protocol, row.state, row.cls) == gap)
            && t.stale == HowMany(rows, (row: Row) => row.stale == Some(true))
    decreases |rows|
  {
    hide HowMany, Count, Judges;
    LastCounts(rows, (row: Row) => row.status == s);
    LastCounts(rows, (row: Row) => row.cls == cls);
    LastCounts(rows, (row: Row) => Judges(row) && (row.capable, row.configured, row.cls) == key);
    LastCounts(rows, (row: Row) => Judges(row) && (row.protocol, row.state, row.cls) == gap);
    LastCounts(rows, (row: Row) => row.stale == Some(true));
    if rows != [] {
      CountersCount(rows[..|rows| - 1], s, cls, key, gap);
      CountersGrow(Counts(rows[..|rows| - 1]), rows[|rows| - 1], s, cls, key, gap);
    }
  }

  lemma {:induction false} CountersGrow(t: Rollup, row: Row, s: Status, cls: string,
                                        key: (Option<bool>, Option<bool>, string),
                                        gap: (string, Option<string>, string))
    ensures var t1 := Count(t, row);
            && t1.byStatus[s] == t.byStatus[s] + (if row.status == s then 1 else 0)
            && t1.byClass[cls] == t.byClass[cls] + (if row.cls == cls then 1 else 0)
            && t1.states[key] ==
               t.states[key] + (if Judges(row) && (row.capable, row.configured, row.cls) == key then 1 else 0)
            && t1.gapStates[gap] ==
               t.gapStates[gap] + (if Judges(row) && (row.protocol, row.state, row.cls) == gap then 1 else 0)
            && t1.stale == t.stale + (if row.stale == Some(true) then 1 else 0)
  {
    hide Bump, TallyFor;
  }

  // The row counts for this host.
  predicate CountsFor(row: Row, host: string) {
    Judges(row) && row.host == Some(host)
  }

  /** A host's entry gives the numbers of its rows: in all, of each class, stale ones, and those observed classical
      although the host is capable or configured. */
  lemma {:induction false} HostCounts(rows: seq<Row>, host: string, cls: string)
    ensures var t := TallyFor(Counts(rows).perHost, host);
            && t.endpoints == HowMany(rows, (row: Row) => CountsFor(row, host))
            && t.byClass[cls] == HowMany(rows, (row: Row) => CountsFor(row, host) && row.cls == cls)
            && t.stale == HowMany(rows, (row: Row) => CountsFor(row, host) && row.stale == Some(true))
            && t.capableButClassical ==
               HowMany(rows, (row: Row) =>
                 CountsFor(row, host) && row.cls == "classical" && row.capable == Some(true))
            && t.configuredButClassical ==
               HowMany(rows, (row: Row) =>
                 CountsFor(row, host) && row.cls == "classical" && row.configured == Some(true))
    decreases |rows|
  {
    hide HowMany;
    LastCounts(rows, (row: Row) => CountsFor(row, host));
    LastCounts(rows, (row: Row) => CountsFor(row, host) && row.cls == cls);
    LastCounts(rows, (row: Row) => CountsFor(row, host) && row.stale == Some(true));
    LastCounts(rows, (row: Row) => CountsFor(row, host) && row.cls == "classical" && row.capable == Some(true));
    LastCounts(rows, (row: Row) => CountsFor(row, host) && row.cls == "classical" && row.configured == Some(true));
    if rows != [] {
      HostCounts(rows[..|rows| - 1], host, cls);
    }
  }
}
