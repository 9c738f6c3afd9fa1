/**
  The fleet rollup: one pass over the reports that keeps only counters.  A counter is a multiset of what it
  counted, one by number a multiset with that many copies.
 */
module FleetRollup {
  const CAPABLE_ONLY := "capable_not_configured"
  const CONFIGURED_ONLY := "configured_not_capable"

  // A client process group's state and how many processes it stands for.
  datatype Client = Client(state: string, processes: nat)

  // The protocols every host has a state for.
  const PROTOCOLS: seq<string> := ["tls", "ssh", "ipsec"]

  // What a report says, absent fields already replaced by "?"; `unavailable` are its flagged detections and
  // `state` is the gap state per protocol.
  datatype Report = Report(
    arch: string, os: string, isa: string, verdict: string, environment: string, cpuModel: string,
    accelerators: seq<string>, unavailable: set<string>, replaceRequired: bool,
    state: string -> string, services: seq<string>, clients: seq<Client>)

  datatype Rollup = Rollup(
    hosts: nat, byArch: multiset<string>, byOs: multiset<string>, byIsa: multiset<string>,
    byVerdict: multiset<string>, byEnvironment: multiset<string>, cpuModels: set<string>,
    accelerators: multiset<string>, unavailable: multiset<string>, replaceRequired: nat,
    byProtocol: map<string, multiset<string>>, services: multiset<string>, clients: multiset<string>,
    processes: multiset<string>, gapHosts: multiset<string>)

  const EMPTY := Rollup(0, multiset{}, multiset{}, multiset{}, multiset{}, multiset{}, {}, multiset{}, multiset{}, 0,
                        map p | p in PROTOCOLS :: multiset{}, multiset{}, multiset{}, multiset{}, multiset{})

  function Members(xs: seq<string>): set<string> {
    set x | x in xs
  }

  function ClientStates(cs: seq<Client>): seq<string> {
    if cs == [] then [] else ClientStates(cs[..|cs| - 1]) + [cs[|cs| - 1].state]
  }

  function Processes(cs: seq<Client>): multiset<string> {
    if cs == [] then multiset{}
    else
      var m, c := Processes(cs[..|cs| - 1]), cs[|cs| - 1];
      m[c.state := m[c.state] + c.processes]
  }

  function Counter(m: map<string, multiset<string>>, p: string): multiset<string> {
    if p in m then m[p] else multiset{}
  }

  // One more host in the counter of each of these protocols.
  function CountedFor(ps: seq<string>, m: map<string, multiset<string>>, r: Report): map<string, multiset<string>> {
    map p | p in ps :: Counter(m, p) + multiset{r.state(p)}
  }

  function CountStates(m: map<string, multiset<string>>, r: Report): map<string, multiset<string>> {
    CountedFor(PROTOCOLS, m, r)
  }

  function StatesFor(ps: seq<string>, r: Report): set<string> {
    set p | p in ps :: r.state(p)
  }

  function ProtocolStates(r: Report): set<string> {
    StatesFor(PROTOCOLS, r)
  }

  // Every state the host shows, whatever shows it.
  function HostStates(r: Report): set<string> {
    ProtocolStates(r) + Members(r.services) + Members(ClientStates(r.clients))
  }

  // One host counted: each accelerator kind, flagged detection and gap at most once.
  function Count(t: Rollup, r: Report): Rollup {
    Rollup(t.hosts + 1, t.byArch + multiset{r.arch}, t.byOs + multiset{r.os}, t.byIsa + multiset{r.isa},
           t.byVerdict + multiset{r.verdict}, t.byEnvironment + multiset{r.environment}, t.cpuModels + {r.cpuModel},
           t.accelerators + multiset(Members(r.accelerators)), t.unavailable + multiset(r.unavailable),
           t.replaceRequired + (if r.replaceRequired then 1 else 0),
           CountStates(t.byProtocol, r), t.services + multiset(r.services),
           t.clients + multiset(ClientStates(r.clients)), t.processes + Processes(r.clients),
           t.gapHosts + multiset({CAPABLE_ONLY, CONFIGURED_ONLY} * HostStates(r)))
  }

  function Counts(rs: seq<Report>): Rollup {
    if rs == [] then EMPTY else Count(Counts(rs[..|rs| - 1]), rs[|rs| - 1])
  }

  lemma {:induction false} CountsGrow(rs: seq<Report>, i: nat)
    requires i < |rs|
    ensures Counts(rs[..i + 1]) == Count(Counts(rs[..i]), rs[i])
  {
    hide Count;
    assert rs[..i + 1][..i] == rs[..i];
  }

  /** The aggregator's pass, one report at a time. */
  method Aggregate(rs: seq<Report>) returns (t: Rollup)
    ensures t == Counts(rs)
  {
    hide Count, Counts;
    t := EMPTY;
    NothingCounted();
    assert rs[..0] == [];
    var i := 0;
    while i < |rs|
      invariant i <= |rs| && t == Counts(rs[..i])
    {
      CountsGrow(rs, i);
      t := CountHost(t, rs[i]);
      i := i + 1;
    }
    assert rs[..i] == rs;
  }

  lemma {:induction false} NothingCounted()
    ensures Counts([]) == EMPTY
  {
  }

  /** The body of that loop. */
  method CountHost(t: Rollup, r: Report) returns (t1: Rollup)
    ensures t1 == Count(t, r)
  {
    hide Members, HostStates, StatesFor, ClientStates, Processes, CountedFor;
    var accelerators := CountKinds(t.accelerators, r.accelerators);
    var byProtocol, protocolStates := CountProtocols(PROTOCOLS, t.byProtocol, r);
    var clients, processes, clientStates := CountClients(t.clients, t.processes, r.clients);
    var states := protocolStates + Members(r.services) + clientStates;
    var gapHosts := t.gapHosts;
    if CAPABLE_ONLY in states {
      gapHosts := gapHosts + multiset{CAPABLE_ONLY};
    }
    if CONFIGURED_ONLY in states {
      gapHosts := gapHosts + multiset{CONFIGURED_ONLY};
    }
    StatesAre(r);
    GapCounts(t.gapHosts, states, gapHosts);
    t1 := Rollup(
      t.hosts + 1, t.byArch + multiset{r.arch}, t.byOs + multiset{r.os}, t.byIsa + multiset{r.isa},
      t.byVerdict + multiset{r.verdict}, t.byEnvironment + multiset{r.environment}, t.cpuModels + {r.cpuModel},
      accelerators, t.unavailable + multiset(r.unavailable),
      if r.replaceRequired then t.replaceRequired + 1 else t.replaceRequired,
      byProtocol, t.services + multiset(r.services), clients, processes, gapHosts);
  }

  /** The loop over one host's accelerators: a kind seen before is not counted again. */
  method CountKinds(before: multiset<string>, kinds: seq<string>) returns (m: multiset<string>)
    ensures m == before + multiset(Members(kinds))
  {
    m := before;
    var seen: set<string> := {};
    var i := 0;
    while i < |kinds|
      invariant i <= |kinds| && seen == Members(kinds[..i]) && m == before + multiset(seen)
    {
      var k := kinds[i];
      assert kinds[..i + 1] == kinds[..i] + [k];
      assert Members(kinds[..i + 1]) == seen + {k};
      if k !in seen {
        m := m + multiset{k};
        assert multiset(seen + {k}) == multiset(seen) + multiset{k};
        seen := seen + {k};
      } else {
        assert seen + {k} == seen;
      }
      i := i + 1;
    }
    assert kinds[..i] == kinds;
  }

  /** The loop over the protocols. */
  method CountProtocols(ps: seq<string>, m0: map<string, multiset<string>>, r: Report)
    returns (m: map<string, multiset<string>>, states: set<string>)
    ensures m == CountedFor(ps, m0, r) && states == StatesFor(ps, r)
  {
    hide Counter, CountedFor, StatesFor;
    m, states := map[], {};
    NothingFor(m0, r);
    assert ps[..0] == [];
    var i := 0;
    while i < |ps|
      invariant i <= |ps| && m == CountedFor(ps[..i], m0, r) && states == StatesFor(ps[..i], r)
    {
      OneMoreFor(ps[..i], ps[i], m0, r);
      assert ps[..i + 1] == ps[..i] + [ps[i]];
      m := m[ps[i] := Counter(m0, ps[i]) + multiset{r.state(ps[i])}];
      states := states + {r.state(ps[i])};
      i := i + 1;
    }
    assert ps[..i] == ps;
  }

  lemma {:induction false} NothingFor(m0: map<string, multiset<string>>, r: Report)
    ensures CountedFor([], m0, r) == map[] && StatesFor([], r) == {}
  {
  }

  lemma {:induction false} OneMoreFor(ps: seq<string>, p: string, m0: map<string, multiset<string>>, r: Report)
    ensures CountedFor(ps + [p], m0, r) == CountedFor(ps, m0, r)[p := Counter(m0, p) + multiset{r.state(p)}]
    ensures StatesFor(ps + [p], r) == StatesFor(ps, r) + {r.state(p)}
  {
    hide Counter;
    assert forall q :: q in ps + [p] <==> q in ps || q == p;
  }

  /** The loop over one host's client groups. */
  method CountClients(clients0: multiset<string>, processes0: multiset<string>, cs: seq<Client>)
    returns (clients: multiset<string>, processes: multiset<string>, states: set<string>)
    ensures clients == clients0 + multiset(ClientStates(cs)) && processes == processes0 + Processes(cs)
    ensures states == Members(ClientStates(cs))
  {
    hide ClientStates, Processes, Members;
    clients, processes, states := clients0, processes0, {};
    NoClients();
    var i := 0;
    assert cs[..0] == [];
    while i < |cs|
      invariant i <= |cs| && clients == clients0 + multiset(ClientStates(cs[..i]))
      invariant processes == processes0 + Processes(cs[..i])
      invariant states == Members(ClientStates(cs[..i]))
    {
      var c := cs[i];
      ClientsGrow(cs, i, clients0, processes0);
      clients := clients + multiset{c.state};
      processes := processes[c.state := processes[c.state] + c.processes];
      states := states + {c.state};
      i := i + 1;
    }
    assert cs[..i] == cs;
  }

  lemma {:induction false} NoClients()
    ensures ClientStates([]) == [] && Processes([]) == multiset{} && Members([]) == {}
  {
  }

  lemma {:induction false} ClientsGrow(cs: seq<Client>, i: nat, clients: multiset<string>, processes: multiset<string>)
    requires i < |cs|
    ensures var c, before, after := cs[i], cs[..i], cs[..i + 1];
            && clients + multiset(ClientStates(after)) == clients + multiset(ClientStates(before)) + multiset{c.state}
            && Members(ClientStates(after)) == Members(ClientStates(before)) + {c.state}
            && var p := processes + Processes(before);
            && processes + Processes(after) == p[c.state := p[c.state] + c.processes]
  {
    assert cs[..i + 1][..i] == cs[..i];
    assert ClientStates(cs[..i + 1]) == ClientStates(cs[..i]) + [cs[i].state];
  }

  lemma {:induction false} StatesAre(r: Report)
    ensures HostStates(r) == ProtocolStates(r) + Members(r.services) + Members(ClientStates(r.clients))
  {
  }

  lemma {:induction false} GapCounts(m: multiset<string>, states: set<string>, counted: multiset<string>)
    requires var m1 := if CAPABLE_ONLY in states then m + multiset{CAPABLE_ONLY} else m;
             counted == if CONFIGURED_ONLY in states then m1 + multiset{CONFIGURED_ONLY} else m1
    ensures counted == m + multiset({CAPABLE_ONLY, CONFIGURED_ONLY} * states)
  {
    assert CAPABLE_ONLY[1] != CONFIGURED_ONLY[1];
    var both := {CAPABLE_ONLY, CONFIGURED_ONLY} * states;
    forall k ensures counted[k] == (m + multiset(both))[k] {
      assert k in both <==> (k == CAPABLE_ONLY || k == CONFIGURED_ONLY) && k in states;
    }
  }

  // ---- What the counters mean ----

  function SumStates(a: map<string, multiset<string>>, b: map<string, multiset<string>>)
    : map<string, multiset<string>>
  {
    map p | p in PROTOCOLS :: Counter(a, p) + Counter(b, p)
  }

  lemma {:induction false} StatesKeepSum(a: map<string, multiset<string>>, b: map<string, multiset<string>>, r: Report)
    ensures CountStates(SumStates(a, b), r) == SumStates(a, CountStates(b, r))
  {
    forall p | p in PROTOCOLS ensures (Counter(a, p) + Counter(b, p)) + multiset{r.state(p)} ==
                                      Counter(a, p) + (Counter(b, p) + multiset{r.state(p)}) {
      Regroup(Counter(a, p), Counter(b, p), multiset{r.state(p)});
    }
  }

  // Every counter of `t` is the sum of those of `a` and `b`, the set of models their union.
  ghost predicate IsSum(t: Rollup, a: Rollup, b: Rollup) {
    && t.hosts == a.hosts + b.hosts && t.byArch == a.byArch + b.byArch && t.byOs == a.byOs + b.byOs
    && t.byIsa == a.byIsa + b.byIsa && t.byVerdict == a.byVerdict + b.byVerdict
    && t.byEnvironment == a.byEnvironment + b.byEnvironment && t.cpuModels == a.cpuModels + b.cpuModels
    && t.accelerators == a.accelerators + b.accelerators && t.unavailable == a.unavailable + b.unavailable
    && t.replaceRequired == a.replaceRequired + b.replaceRequired
    && t.byProtocol == SumStates(a.byProtocol, b.byProtocol) && t.services == a.services + b.services
    && t.clients == a.clients + b.clients && t.processes == a.processes + b.processes
    && t.gapHosts == a.gapHosts + b.gapHosts
  }

  lemma {:induction false} Regroup<T>(a: multiset<T>, b: multiset<T>, c: multiset<T>)
    ensures (a + b) + c == a + (b + c)
  {
  }

  lemma {:induction false} CountKeepsSum(t: Rollup, a: Rollup, b: Rollup, r: Report)
    requires IsSum(t, a, b)
    ensures IsSum(Count(t, r), a, Count(b, r))
  {
    hide Members, HostStates, ClientStates, Processes, CountStates, SumStates;
    Regroup(a.byArch, b.byArch, multiset{r.arch});
    Regroup(a.byOs, b.byOs, multiset{r.os});
    Regroup(a.byIsa, b.byIsa, multiset{r.isa});
    Regroup(a.byVerdict, b.byVerdict, multiset{r.verdict});
    Regroup(a.byEnvironment, b.byEnvironment, multiset{r.environment});
    Regroup(a.accelerators, b.accelerators, multiset(Members(r.accelerators)));
    Regroup(a.unavailable, b.unavailable, multiset(r.unavailable));
    StatesKeepSum(a.byProtocol, b.byProtocol, r);
    Regroup(a.services, b.services, multiset(r.services));
    Regroup(a.clients, b.clients, multiset(ClientStates(r.clients)));
    Regroup(a.processes, b.processes, Processes(r.clients));
    Regroup(a.gapHosts, b.gapHosts, multiset({CAPABLE_ONLY, CONFIGURED_ONLY} * HostStates(r)));
  }

  /** The rollup of two fleets taken together is the sum of their rollups. */
  lemma {:induction false} RollupAppends(a: seq<Report>, b: seq<Report>)
    ensures IsSum(Counts(a + b), Counts(a), Counts(b))
    decreases |b|
  {
    hide Counts, Count, IsSum;
    if b == [] {
      assert a + b == a;
      NothingCounted();
      ProtocolsCounted(a);
      EmptySum(Counts(a));
    } else {
      var n := |b| - 1;
      RollupAppends(a, b[..n]);
      CountKeepsSum(Counts(a + b[..n]), Counts(a), Counts(b[..n]), b[n]);
      assert (a + b)[..|a| + n] == a + b[..n] && (a + b)[..|a| + n + 1] == a + b && b[..n + 1] == b;
      CountsGrow(a + b, |a| + n);
      CountsGrow(b, n);
    }
  }

  lemma {:induction false} EmptySum(t: Rollup)
    requires t.byProtocol.Keys == Members(PROTOCOLS)
    ensures IsSum(t, t, EMPTY)
  {
    forall p | p in PROTOCOLS ensures Counter(t.byProtocol, p) + multiset{} == t.byProtocol[p] {
      assert p in t.byProtocol.Keys;
    }
    assert SumStates(t.byProtocol, EMPTY.byProtocol) == t.byProtocol;
  }

  lemma {:induction false} ProtocolsCounted(rs: seq<Report>)
    ensures Counts(rs).byProtocol.Keys == Members(PROTOCOLS)
    decreases |rs|
  {
    hide ClientStates, Processes, HostStates;
    if rs != [] {
      ProtocolsCounted(rs[..|rs| - 1]);
    }
  }

  // The number of hosts with a property.
  function HostsWith(rs: seq<Report>, p: Report -> bool): nat {
    if rs == [] then 0 else HostsWith(rs[..|rs| - 1], p) + if p(rs[|rs| - 1]) then 1 else 0
  }

  // The host shows one of the two gap states, in a protocol, a service or a client group.
  ghost predicate HasGap(r: Report, key: string) {
    && (key == "capable_not_configured" || key == "configured_not_capable")
    && (|| r.state("tls") == key || r.state("ssh") == key || r.state("ipsec") == key || key in r.services
        || exists c | c in r.clients :: c.state == key)
  }

  lemma {:induction false} StatesShown(r: Report, key: string)
    ensures key in HostStates(r) <==>
            || r.state("tls") == key || r.state("ssh") == key || r.state("ipsec") == key || key in r.services
            || exists c | c in r.clients :: c.state == key
  {
    hide ClientStates;
    ClientStatesAre(r.clients, key);
    assert PROTOCOLS == ["tls", "ssh", "ipsec"];
    assert forall p :: p in PROTOCOLS <==> p == "tls" || p == "ssh" || p == "ipsec";
  }

  lemma {:induction false} ClientStatesAre(cs: seq<Client>, key: string)
    ensures key in ClientStates(cs) <==> exists c | c in cs :: c.state == key
    ensures multiset(ClientStates(cs))[key] == ClientsIn(cs, key)
    ensures Processes(cs)[key] == ProcessesIn(cs, key)
    decreases |cs|
  {
    if cs != [] {
      var n := |cs| - 1;
      ClientStatesAre(cs[..n], key);
      assert cs == cs[..n] + [cs[n]];
    }
  }

  // Of the client groups in a state: how many, and the processes they stand for.
  function ClientsIn(cs: seq<Client>, key: string): nat {
    if cs == [] then 0 else ClientsIn(cs[..|cs| - 1], key) + if cs[|cs| - 1].state == key then 1 else 0
  }

  function ProcessesIn(cs: seq<Client>, key: string): nat {
    if cs == [] then 0
    else ProcessesIn(cs[..|cs| - 1], key) + if cs[|cs| - 1].state == key then cs[|cs| - 1].processes else 0
  }

  // The sum over all hosts.
  function Total(rs: seq<Report>, f: Report -> nat): nat {
    if rs == [] then 0 else Total(rs[..|rs| - 1], f) + f(rs[|rs| - 1])
  }

  /** Each breakdown counts the hosts with the value. */
  lemma {:induction false} BreakdownsCount(rs: seq<Report>, key: string)
    ensures Counts(rs).byArch[key] == HostsWith(rs, (r: Report) => r.arch == key)
    ensures Counts(rs).byOs[key] == HostsWith(rs, (r: Report) => r.os == key)
    ensures Counts(rs).byIsa[key] == HostsWith(rs, (r: Report) => r.isa == key)
    ensures Counts(rs).byVerdict[key] == HostsWith(rs, (r: Report) => r.verdict == key)
    ensures Counts(rs).byEnvironment[key] == HostsWith(rs, (r: Report) => r.environment == key)
    ensures Counts(rs).replaceRequired == HostsWith(rs, (r: Report) => r.replaceRequired)
    decreases |rs|
  {
    hide Count, Counts;
    if rs == [] {
      NothingCounted();
    } else {
      var n := |rs| - 1;
      BreakdownsCount(rs[..n], key);
      assert rs[..n + 1] == rs;
      CountsGrow(rs, n);
      BreakdownsGrow(Counts(rs[..n]), rs[n], key);
    }
  }

  lemma {:induction false} BreakdownsGrow(t: Rollup, r: Report, key: string)
    ensures var t1 := Count(t, r);
            && t1.byArch[key] == t.byArch[key] + (if r.arch == key then 1 else 0)
            && t1.byOs[key] == t.byOs[key] + (if r.os == key then 1 else 0)
            && t1.byIsa[key] == t.byIsa[key] + (if r.isa == key then 1 else 0)
            && t1.byVerdict[key] == t.byVerdict[key] + (if r.verdict == key then 1 else 0)
            && t1.byEnvironment[key] == t.byEnvironment[key] + (if r.environment == key then 1 else 0)
            && t1.replaceRequired == t.replaceRequired + (if r.replaceRequired then 1 else 0)
            && (key in t1.cpuModels <==> key in t.cpuModels || r.cpuModel == key)
  {
    hide HostStates, Members, ClientStates, Processes, CountStates;
  }

  /** The models listed are those of the hosts. */
  lemma {:induction false} ModelsAre(rs: seq<Report>, key: string)
    ensures key in Counts(rs).cpuModels <==> exists i :: 0 <= i < |rs| && rs[i].cpuModel == key
    decreases |rs|
  {
    hide Count, Counts;
    if rs == [] {
      NothingCounted();
    } else {
      var n := |rs| - 1;
      ModelsAre(rs[..n], key);
      assert rs[..n + 1] == rs;
      CountsGrow(rs, n);
      BreakdownsGrow(Counts(rs[..n]), rs[n], key);
      if i :| 0 <= i < n && rs[..n][i].cpuModel == key {
        assert rs[i].cpuModel == key;
      }
      if i :| 0 <= i < |rs| && rs[i].cpuModel == key {
        assert i == n || rs[..n][i].cpuModel == key;
      }
    }
  }

  /** Each protocol's counter gives the hosts in each state. */
  lemma {:induction false} StatesCount(rs: seq<Report>, p: string, key: string)
    requires p == "tls" || p == "ssh" || p == "ipsec"
    ensures p in Counts(rs).byProtocol
    ensures Counts(rs).byProtocol[p][key] == HostsWith(rs, (r: Report) => r.state(p) == key)
    decreases |rs|
  {
    hide Count, Counts;
    assert PROTOCOLS == ["tls", "ssh", "ipsec"];
    assert p in PROTOCOLS;
    if rs == [] {
      NothingCounted();
    } else {
      var n := |rs| - 1;
      StatesCount(rs[..n], p, key);
      assert rs[..n + 1] == rs;
      CountsGrow(rs, n);
      StatesGrow(Counts(rs[..n]), rs[n], p);
    }
  }

  lemma {:induction false} StatesGrow(t: Rollup, r: Report, p: string)
    requires p in PROTOCOLS
    ensures p in Count(t, r).byProtocol
    ensures Count(t, r).byProtocol[p] == Counter(t.byProtocol, p) + multiset{r.state(p)}
  {
    hide HostStates, Members, ClientStates, Processes;
  }

  /** Services, client groups and their processes are summed over the hosts, state by state. */
  lemma {:induction false} ServicesCount(rs: seq<Report>, key: string)
    ensures Counts(rs).services[key] == Total(rs, (r: Report) => multiset(r.services)[key])
    ensures Counts(rs).clients[key] == Total(rs, (r: Report) => ClientsIn(r.clients, key))
    ensures Counts(rs).processes[key] == Total(rs, (r: Report) => ProcessesIn(r.clients, key))
    decreases |rs|
  {
    hide Count, Counts;
    if rs == [] {
      NothingCounted();
    } else {
      var n := |rs| - 1;
      ServicesCount(rs[..n], key);
      assert rs[..n + 1] == rs;
      CountsGrow(rs, n);
      ServicesGrow(Counts(rs[..n]), rs[n], key);
    }
  }

  lemma {:induction false} ServicesGrow(t: Rollup, r: Report, key: string)
    ensures var t1 := Count(t, r);
            && t1.services[key] == t.services[key] + multiset(r.services)[key]
            && t1.clients[key] == t.clients[key] + ClientsIn(r.clients, key)
            && t1.processes[key] == t.processes[key] + ProcessesIn(r.clients, key)
  {
    hide HostStates, Members, ClientStates, Processes, CountStates;
    ClientStatesAre(r.clients, key);
  }

  /** Every breakdown of the fleet adds up to the fleet. */
  lemma {:induction false} BreakdownsAddUp(rs: seq<Report>)
    ensures var t := Counts(rs);
            && t.hosts == |t.byArch| == |t.byOs| == |t.byIsa| == |t.byVerdict| == |t.byEnvironment| == |rs|
            && forall p | p in PROTOCOLS :: p in t.byProtocol && |t.byProtocol[p]| == |rs|
    decreases |rs|
  {
    hide HostStates, Members, ClientStates, Processes;
    if rs != [] {
      var n := |rs| - 1;
      BreakdownsAddUp(rs[..n]);
      assert rs[..n + 1] == rs;
      CountsGrow(rs, n);
      hide Counts;
    }
  }

  /** An accelerator kind, a flagged detection or a gap is counted once per host that has it, however often
      the host lists it. */
  lemma {:induction false} CountersCountHosts(rs: seq<Report>, key: string)
    ensures Counts(rs).accelerators[key] == HostsWith(rs, (r: Report) => key in r.accelerators)
    ensures Counts(rs).unavailable[key] == HostsWith(rs, (r: Report) => key in r.unavailable)
    ensures Counts(rs).gapHosts[key] == HostsWith(rs, (r: Report) => HasGap(r, key))
    decreases |rs|
  {
    if rs != [] {
      var n := |rs| - 1;
      CountersCountHosts(rs[..n], key);
      assert rs[..n + 1] == rs;
      CountsGrow(rs, n);
      CountOfKey(Counts(rs[..n]), rs[n], key);
      hide Counts, Count, HasGap;
    }
  }

  lemma {:induction false} CountOfKey(t: Rollup, r: Report, key: string)
    ensures var t1 := Count(t, r);
            && t1.accelerators[key] == t.accelerators[key] + (if key in r.accelerators then 1 else 0)
            && t1.unavailable[key] == t.unavailable[key] + (if key in r.unavailable then 1 else 0)
            && t1.gapHosts[key] == t.gapHosts[key] + (if HasGap(r, key) then 1 else 0)
  {
    hide HostStates, ClientStates, Processes;
    StatesShown(r, key);
    assert key in {CAPABLE_ONLY, CONFIGURED_ONLY} <==>
      key == "capable_not_configured" || key == "configured_not_capable";
  }
}
