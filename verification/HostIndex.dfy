/**
  The fleet index that joins network observations to hosts, and the search it must agree with.

  Four dictionaries from keys to host positions are kept up to date by `Add`; `Candidates` only looks keys
  up in them.  `Search` asks the same question of every host in turn.
 */
module HostIndex {
  import opened Options

  datatype Listener = Listener(
    protocol: string, address: string, port: int, bindScope: string, hostNamespace: bool,
    libraryCapable: Option<bool>, goDefaultHybrid: bool)

  // `name` is the hostname lower-cased and stripped of trailing dots; an unknown address is "".
  datatype HostEntry = HostEntry(
    hostname: string, name: string, generatedAt: Option<int>, serviceScan: bool, listeners: seq<Listener>,
    certs: set<string>, tlsConfigured: Option<bool>, sshConfigured: Option<bool>, ikeConfigured: Option<bool>,
    sshCapable: Option<bool>, ikeCapable: Option<bool>)

  // name.split(".", 1)[0]
  function Short(name: string): string {
    if name == "" || name[0] == '.' then "" else [name[0]] + Short(name[1..])
  }

  // Addresses the host listens on specifically.
  function Ips(h: HostEntry): set<string> {
    set ln | ln in h.listeners && ln.bindScope == "specific" && ln.address != "" :: ln.address
  }

  datatype Kind = ByName | ByShort | ByIp | ByCert

  // Host h is filed under key k.
  predicate Filed(kind: Kind, h: HostEntry, k: string) {
    match kind
    case ByName => h.name != "" && h.name == k
    case ByShort => h.name != "" && Short(h.name) == k
    case ByIp => k in Ips(h)
    case ByCert => k in h.certs
  }

  type Table = map<string, seq<nat>>

  function Lookup(t: Table, k: string): seq<nat> {
    if k in t then t[k] else []
  }

  // setdefault(k, []).append(i)
  function Append(t: Table, k: string, i: nat): Table {
    t[k := Lookup(t, k) + [i]]
  }

  // The positions of the hosts filed under k, in order.
  function Positions(kind: Kind, hosts: seq<HostEntry>, k: string): seq<nat> {
    if hosts == [] then []
    else
      var n := |hosts| - 1;
      Positions(kind, hosts[..n], k) + if Filed(kind, hosts[n], k) then [n] else []
  }

  ghost predicate Indexes(kind: Kind, hosts: seq<HostEntry>, t: Table) {
    forall k :: Lookup(t, k) == Positions(kind, hosts, k)
  }

  class Index {
    var hosts: seq<HostEntry>
    var byName: Table
    var byShort: Table
    var byIp: Table
    var byCert: Table

    ghost predicate Valid()
      reads this
    {
      && Indexes(ByName, hosts, byName) && Indexes(ByShort, hosts, byShort)
      && Indexes(ByIp, hosts, byIp) && Indexes(ByCert, hosts, byCert)
    }

    constructor ()
      ensures Valid() && hosts == []
    {
      hosts := [];
      byName, byShort, byIp, byCert := map[], map[], map[], map[];
    }

    /** Files one more host under its name, short name, addresses and certificates. */
    method Add(entry: HostEntry)
      requires Valid()
      modifies this
      ensures Valid() && hosts == old(hosts) + [entry]
    {
      hide Indexes, Positions, Ips;
      ghost var before := hosts;
      var i := |hosts|;
      hosts := hosts + [entry];
      if entry.name != "" {
        byName := Append(byName, entry.name, i);
        byShort := Append(byShort, Short(entry.name), i);
        FiledOnce(ByName, before, entry, old(byName), entry.name);
        FiledOnce(ByShort, before, entry, old(byShort), Short(entry.name));
      } else {
        FiledNowhere(ByName, before, entry, byName);
        FiledNowhere(ByShort, before, entry, byShort);
      }
      byIp := FileUnder(ByIp, before, entry, byIp, Ips(entry), i);
      byCert := FileUnder(ByCert, before, entry, byCert, entry.certs, i);
    }

    /** The hosts one observation may be about. */
    method Candidates(o: Observation) returns (m: Match)
      requires Valid()
      ensures m == Search(hosts, o)
    {
      hide Positions, Filed, Hits, Ascending, Lookup, Short;
      var certHosts := if o.cert != "" then Members(Lookup(byCert, o.cert)) else {};
      var shorts := if o.fqdn != "" then Members(Lookup(byShort, Short(o.fqdn))) else {};
      if o.sni != "" {
        shorts := shorts + Members(Lookup(byShort, Short(o.sni)));
      }
      LookupsAreHits(o);
      var tiers := [
        if o.fqdn != "" then Members(Lookup(byName, o.fqdn)) else {},
        if o.sni != "" then Members(Lookup(byName, o.sni)) else {},
        if o.ip != "" then Members(Lookup(byIp, o.ip)) else {},
        shorts,
        certHosts];
      hide Members, Search;
      m := TryTiers(hosts, o, tiers, certHosts, |hosts|);
    }

    // Each lookup is the tier's search.
    lemma {:induction false} LookupsAreHits(o: Observation)
      requires Valid()
      ensures (if o.fqdn != "" then Members(Lookup(byName, o.fqdn)) else {}) == Hits(hosts, o, Fqdn)
      ensures (if o.sni != "" then Members(Lookup(byName, o.sni)) else {}) == Hits(hosts, o, Sni)
      ensures (if o.ip != "" then Members(Lookup(byIp, o.ip)) else {}) == Hits(hosts, o, Ip)
      ensures (if o.fqdn != "" then Members(Lookup(byShort, Short(o.fqdn))) else {})
              + (if o.sni != "" then Members(Lookup(byShort, Short(o.sni))) else {}) == Hits(hosts, o, ShortName)
      ensures (if o.cert != "" then Members(Lookup(byCert, o.cert)) else {}) == Hits(hosts, o, Certificate)
    {
      PositionsAreFiled(ByName, hosts, o.fqdn);
      PositionsAreFiled(ByName, hosts, o.sni);
      PositionsAreFiled(ByIp, hosts, o.ip);
      PositionsAreFiled(ByShort, hosts, Short(o.fqdn));
      PositionsAreFiled(ByShort, hosts, Short(o.sni));
      PositionsAreFiled(ByCert, hosts, o.cert);
      hide Positions, Short, Ips;
    }
  }

  // The loop over the tiers, strongest first; `n` is the number of hosts.
  method TryTiers(ghost hosts: seq<HostEntry>, ghost o: Observation, tiers: seq<set<nat>>, certHosts: set<nat>, n: nat)
    returns (m: Match)
    requires n == |hosts| && certHosts == Hits(hosts, o, Certificate)
    requires |tiers| == |TIERS| && forall t | 0 <= t < |tiers| :: tiers[t] == Hits(hosts, o, TIERS[t])
    ensures m == Search(hosts, o)
  {
    hide Hits, Ascending;
    assert TIERS[0..] == TIERS;
    var t := 0;
    while t < |tiers|
      invariant t <= |tiers|
      invariant Search(hosts, o) == SearchFrom(hosts, o, TIERS[t..])
    {
      var basis, hits := TIERS[t], Ascending(tiers[t], n);
      assert TIERS[t..][0] == basis && TIERS[t..][1..] == TIERS[t + 1..];
      if |hits| == 1 {
        return Unique(hits[0], basis, false);
      }
      if |hits| > 1 {
        var narrowed := Ascending(tiers[t] * certHosts, n);
        if |narrowed| == 1 && basis != Certificate {
          return Unique(narrowed[0], basis, true);
        }
        return Ambiguous(hits);
      }
      t := t + 1;
    }
    return NoMatch;
  }

  // `t` is `t0` with i filed under those of the keys that are no longer left.
  ghost predicate FiledSoFar(t: Table, t0: Table, keys: set<string>, left: set<string>, i: nat) {
    forall k :: Lookup(t, k) == Lookup(t0, k) + if k in keys && k !in left then [i] else []
  }

  lemma {:induction false} FiledOneMore(t: Table, t0: Table, keys: set<string>, left: set<string>, i: nat, k: string)
    requires FiledSoFar(t, t0, keys, left, i) && left <= keys && k in left
    ensures FiledSoFar(Append(t, k, i), t0, keys, left - {k}, i)
  {
    assert Lookup(t0, k) + [] == Lookup(t0, k);
  }

  lemma {:induction false} FiledAll(kind: Kind, hosts: seq<HostEntry>, entry: HostEntry, t: Table, t0: Table,
                                    keys: set<string>)
    requires Indexes(kind, hosts, t0) && FiledSoFar(t, t0, keys, {}, |hosts|)
    requires forall k :: k in keys <==> Filed(kind, entry, k)
    ensures Indexes(kind, hosts + [entry], t)
  {
    hide Positions, Filed, Lookup;
    forall k ensures Lookup(t, k) == Positions(kind, hosts + [entry], k) {
      PositionsGrow(kind, hosts, entry, k);
    }
  }

  lemma {:induction false} FiledNone(t: Table, keys: set<string>, i: nat)
    ensures FiledSoFar(t, t, keys, keys, i)
  {
  }

  // The loop over the keys one host has of a kind.
  method FileUnder(ghost kind: Kind, ghost hosts: seq<HostEntry>, ghost entry: HostEntry, t0: Table,
                   keys: set<string>, i: nat)
    returns (t: Table)
    requires i == |hosts| && Indexes(kind, hosts, t0)
    requires forall k :: k in keys <==> Filed(kind, entry, k)
    ensures Indexes(kind, hosts + [entry], t)
  {
    hide Indexes, FiledSoFar, Filed, Append;
    t := t0;
    var left := keys;
    FiledNone(t0, keys, i);
    while left != {}
      invariant left <= keys && FiledSoFar(t, t0, keys, left, i)
      decreases left
    {
      var k :| k in left;
      FiledOneMore(t, t0, keys, left, i, k);
      t := Append(t, k, i);
      left := left - {k};
    }
    FiledAll(kind, hosts, entry, t, t0, keys);
  }

  lemma {:induction false} PositionsGrow(kind: Kind, hosts: seq<HostEntry>, entry: HostEntry, k: string)
    ensures Positions(kind, hosts + [entry], k) ==
            Positions(kind, hosts, k) + if Filed(kind, entry, k) then [|hosts|] else []
  {
    assert (hosts + [entry])[..|hosts|] == hosts;
  }

  lemma {:induction false} FiledOnce(kind: Kind, hosts: seq<HostEntry>, entry: HostEntry, t: Table, key: string)
    requires Indexes(kind, hosts, t) && forall k :: Filed(kind, entry, k) <==> k == key
    ensures Indexes(kind, hosts + [entry], Append(t, key, |hosts|))
  {
    forall k ensures Lookup(Append(t, key, |hosts|), k) == Positions(kind, hosts + [entry], k) {
      PositionsGrow(kind, hosts, entry, k);
    }
  }

  lemma {:induction false} FiledNowhere(kind: Kind, hosts: seq<HostEntry>, entry: HostEntry, t: Table)
    requires Indexes(kind, hosts, t) && forall k :: !Filed(kind, entry, k)
    ensures Indexes(kind, hosts + [entry], t)
  {
    forall k ensures Lookup(t, k) == Positions(kind, hosts + [entry], k) {
      PositionsGrow(kind, hosts, entry, k);
    }
  }

  // ---- The search ----

  // What a record says about its endpoint: names and fingerprint lower-cased, "" when absent.
  datatype Observation = Observation(fqdn: string, sni: string, ip: string, cert: string)

  datatype Basis = Fqdn | Sni | Ip | ShortName | Certificate

  // Strongest first.
  const TIERS: seq<Basis> := [Fqdn, Sni, Ip, ShortName, Certificate]

  // `narrowed` is whether the certificate had to decide.
  datatype Match = Unique(host: nat, basis: Basis, narrowed: bool) | Ambiguous(candidates: seq<nat>) | NoMatch

  // The host answers to the observation at this tier.
  predicate Answers(h: HostEntry, o: Observation, basis: Basis) {
    match basis
    case Fqdn => o.fqdn != "" && Filed(ByName, h, o.fqdn)
    case Sni => o.sni != "" && Filed(ByName, h, o.sni)
    case Ip => o.ip != "" && Filed(ByIp, h, o.ip)
    case ShortName =>
      || (o.fqdn != "" && Filed(ByShort, h, Short(o.fqdn)))
      || (o.sni != "" && Filed(ByShort, h, Short(o.sni)))
    case Certificate => o.cert != "" && Filed(ByCert, h, o.cert)
  }

  function Hits(hosts: seq<HostEntry>, o: Observation, basis: Basis): set<nat> {
    set i: nat | i < |hosts| && Answers(hosts[i], o, basis)
  }

  // sorted(s), for s below n
  function Ascending(s: set<nat>, n: nat): (r: seq<nat>)
    ensures forall i | 0 <= i < |r| :: r[i] in s && r[i] < n
  {
    if n == 0 then [] else Ascending(s, n - 1) + if n - 1 in s then [n - 1] else []
  }

  function SearchFrom(hosts: seq<HostEntry>, o: Observation, tiers: seq<Basis>): Match {
    if tiers == [] then NoMatch
    else
      var hits := Ascending(Hits(hosts, o, tiers[0]), |hosts|);
      if |hits| == 1 then Unique(hits[0], tiers[0], false)
      else if |hits| > 1 then
        var narrowed := Ascending(Hits(hosts, o, tiers[0]) * Hits(hosts, o, Certificate), |hosts|);
        if |narrowed| == 1 && tiers[0] != Certificate then Unique(narrowed[0], tiers[0], true) else Ambiguous(hits)
      else SearchFrom(hosts, o, tiers[1..])
  }

  function Search(hosts: seq<HostEntry>, o: Observation): Match {
    SearchFrom(hosts, o, TIERS)
  }

  function Members(xs: seq<nat>): set<nat> {
    set x | x in xs
  }

  lemma {:induction false} PositionsAreFiled(kind: Kind, hosts: seq<HostEntry>, k: string)
    ensures Members(Positions(kind, hosts, k)) == set i: nat | i < |hosts| && Filed(kind, hosts[i], k)
    decreases |hosts|
  {
    if hosts != [] {
      var n := |hosts| - 1;
      PositionsAreFiled(kind, hosts[..n], k);
      var a := Positions(kind, hosts[..n], k);
      hide Positions, Filed;
      forall i: nat ensures i in Members(Positions(kind, hosts, k)) <==> i < |hosts| && Filed(kind, hosts[i], k) {
        assert i in Members(a) <==> i < n && Filed(kind, hosts[..n][i], k);
      }
    }
  }
}
