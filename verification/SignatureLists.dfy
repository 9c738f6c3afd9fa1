/**
  The walk over an array of EFI_SIGNATURE_LIST structures (section 32.4.1 of UEFI 2.10).

  Malformed lists end the walk and certificates refused with DERError are counted; a certificate that fails
  with a plain ValueError ends the call, and no report comes back.
 */
module SignatureLists {
  import opened Bytes
  import opened Options
  import opened Certificates
  import Der
  import CertificateWalk
  import CertificateErrors

  const GUID: nat := 16
  const LIST_HEADER: nat := 28

  // The GUIDs of the types that are told apart, as they are stored.
  const X509: bytes := [0xA1, 0x59, 0xC0, 0xA5, 0xE4, 0x94, 0xA7, 0x4A, 0x87, 0xB5, 0xAB, 0x15, 0x5C, 0x2B, 0xF0, 0x72]
  const SHA256: bytes :=
    [0x26, 0x16, 0xC4, 0xC1, 0x4C, 0x50, 0x92, 0x40, 0xAC, 0xA9, 0x41, 0xF9, 0x36, 0x93, 0x43, 0x28]
  const RSA2048: bytes :=
    [0xE8, 0x66, 0x57, 0x3C, 0x9C, 0x26, 0x34, 0x4E, 0xAA, 0x14, 0xED, 0x77, 0x6E, 0x85, 0xB3, 0xB6]

  datatype Report = Report(
    certificates: seq<Certificate>, unparsable: nat, hashes: nat, rsaKeys: nat, other: multiset<bytes>,
    partials: nat, stopped: bool)

  const NOTHING := Report([], 0, 0, 0, multiset{}, 0, false)

  // One list: its type, the data of its whole entries, whether bytes are left over, and where it ends.
  datatype SigList = SigList(kind: bytes, entries: seq<bytes>, partial: bool, end: nat)

  // Entries of `size` bytes from `at` on; the 16 bytes of the owner's GUID are dropped.
  function EntriesFrom(data: bytes, at: nat, end: nat, size: nat): seq<bytes>
    requires at <= end <= |data| && size >= GUID
    decreases end - at
  {
    if at + size > end then [] else [data[at + GUID..at + size]] + EntriesFrom(data, at + size, end, size)
  }

  function ListAt(data: bytes, pos: nat): (r: Option<SigList>)
    ensures r.Some? ==> pos + LIST_HEADER <= r.value.end <= |data|
  {
    if pos + LIST_HEADER > |data| then None
    else
      var listSize, headerSize, size :=
        U32(Little, data, pos + 16), U32(Little, data, pos + 20), U32(Little, data, pos + 24);
      var end, first := pos + listSize, pos + LIST_HEADER + headerSize;
      if listSize < LIST_HEADER || end > |data| || size < GUID || first > end then None
      else Some(SigList(data[pos..pos + GUID], EntriesFrom(data, first, end, size), (end - first) % size != 0, end))
  }

  // The lists up to the end, or up to one that is malformed.
  datatype Walk = Walk(lists: seq<SigList>, stopped: bool)

  function Lists(data: bytes, pos: nat): Walk
    decreases |data| - pos
  {
    if pos >= |data| then Walk([], false)
    else match ListAt(data, pos)
      case None => Walk([], true)
      case Some(l) =>
        var rest := Lists(data, l.end);
        rest.(lists := [l] + rest.lists)
  }

  // None is the error that is not caught.
  function AddEntry(rules: Rules, kind: bytes, payload: bytes, r: Report): Option<Report> {
    if kind == X509 then
      match ParseCertificate(rules, payload)
      case Done(c) => Some(r.(certificates := r.certificates + [c]))
      case DerError => Some(r.(unparsable := r.unparsable + 1))
      case ValueError => None
    else if kind == SHA256 then Some(r.(hashes := r.hashes + 1))
    else if kind == RSA2048 then Some(r.(rsaKeys := r.rsaKeys + 1))
    else Some(r.(other := r.other + multiset{kind}))
  }

  function AddEntries(rules: Rules, kind: bytes, entries: seq<bytes>, r: Report): Option<Report> {
    if entries == [] then Some(r)
    else
      var r1 :- AddEntry(rules, kind, entries[0], r);
      AddEntries(rules, kind, entries[1..], r1)
  }

  function Begun(l: SigList, r: Report): Report {
    if l.partial then r.(partials := r.partials + 1) else r
  }

  function AddLists(rules: Rules, ls: seq<SigList>, r: Report): Option<Report> {
    if ls == [] then Some(r)
    else
      var r1 :- AddEntries(rules, ls[0].kind, ls[0].entries, Begun(ls[0], r));
      AddLists(rules, ls[1..], r1)
  }

  function Parse(rules: Rules, data: bytes): Option<Report> {
    var w := Lists(data, 0);
    var r :- AddLists(rules, w.lists, NOTHING);
    Some(r.(stopped := w.stopped))
  }

  /** The outer loop over lists; it stays inside the buffer and ends on every input. */
  method ParseSignatureLists(rules: Rules, data: bytes) returns (r: Option<Report>)
    ensures r == Parse(rules, data)
  {
    hide U32, EntriesFrom, AddEntries;
    var report := NOTHING;
    var pos := 0;
    ghost var w := Lists(data, 0);
    while pos < |data|
      invariant pos <= |data| && w.stopped == Lists(data, pos).stopped
      invariant AddLists(rules, w.lists, NOTHING) == AddLists(rules, Lists(data, pos).lists, report)
      invariant !report.stopped
    {
      if pos + LIST_HEADER > |data| {
        return Some(report.(stopped := true));
      }
      var kind := data[pos..pos + GUID];
      var listSize, headerSize, size :=
        U32(Little, data, pos + 16), U32(Little, data, pos + 20), U32(Little, data, pos + 24);
      var end, first := pos + listSize, pos + LIST_HEADER + headerSize;
      if listSize < LIST_HEADER || end > |data| || size < GUID || first > end {
        return Some(report.(stopped := true));
      }
      ghost var l := ListAt(data, pos).value;
      ghost var rest := Lists(data, end);
      assert ([l] + rest.lists)[1..] == rest.lists;
      if (end - first) % size != 0 {
        report := report.(partials := report.partials + 1);
      }
      report :- ReadEntries(rules, data, kind, first, end, size, report);
      pos := end;
    }
    r := Some(report);
  }

  /** The inner loop over the entries of one list. */
  method ReadEntries(rules: Rules, data: bytes, kind: bytes, first: nat, end: nat, size: nat, r0: Report)
    returns (r: Option<Report>)
    requires first <= end <= |data| && size >= GUID
    ensures r == AddEntries(rules, kind, EntriesFrom(data, first, end, size), r0)
    ensures r.Some? ==> r.value.stopped == r0.stopped
  {
    hide AddEntry;
    var report := r0;
    var entry := first;
    while entry + size <= end
      invariant first <= entry <= end
      invariant AddEntries(rules, kind, EntriesFrom(data, entry, end, size), report) ==
                AddEntries(rules, kind, EntriesFrom(data, first, end, size), r0)
      invariant report.stopped == r0.stopped
    {
      var payload := data[entry + GUID..entry + size];
      ghost var rest := EntriesFrom(data, entry + size, end, size);
      assert ([payload] + rest)[1..] == rest;
      AddEntryKeepsStopped(rules, kind, payload, report);
      report :- AddEntry(rules, kind, payload, report);
      entry := entry + size;
    }
    r := Some(report);
  }

  lemma {:induction false} AddEntryKeepsStopped(rules: Rules, kind: bytes, payload: bytes, r: Report)
    ensures var t := AddEntry(rules, kind, payload, r);
            t.Some? ==> t.value.stopped == r.stopped
  {
    hide ParseCertificate;
  }

  lemma {:induction false} AddEntriesKeepsStopped(rules: Rules, kind: bytes, entries: seq<bytes>, r: Report)
    ensures var t := AddEntries(rules, kind, entries, r);
            t.Some? ==> t.value.stopped == r.stopped
    decreases |entries|
  {
    hide AddEntry;
    if entries != [] {
      AddEntryKeepsStopped(rules, kind, entries[0], r);
      var t := AddEntry(rules, kind, entries[0], r);
      if t.Some? {
        AddEntriesKeepsStopped(rules, kind, entries[1..], t.value);
      }
    }
  }

  lemma {:induction false} AddListsKeepsStopped(rules: Rules, ls: seq<SigList>, r: Report)
    ensures var t := AddLists(rules, ls, r);
            t.Some? ==> t.value.stopped == r.stopped
    decreases |ls|
  {
    hide AddEntries;
    if ls != [] {
      AddEntriesKeepsStopped(rules, ls[0].kind, ls[0].entries, Begun(ls[0], r));
      var t := AddEntries(rules, ls[0].kind, ls[0].entries, Begun(ls[0], r));
      if t.Some? {
        AddListsKeepsStopped(rules, ls[1..], t.value);
      }
    }
  }

  // ---- What raises ----

  // The entries of one list if it is of the type asked for.
  function IfKind(kind: bytes, entries: seq<bytes>, asked: bytes): seq<bytes> {
    if kind == asked then entries else []
  }

  // The entries of the lists of one type, in order.
  function OfKind(ls: seq<SigList>, kind: bytes): seq<bytes> {
    if ls == [] then [] else IfKind(ls[0].kind, ls[0].entries, kind) + OfKind(ls[1..], kind)
  }

  ghost predicate SomeRaises(rules: Rules, entries: seq<bytes>) {
    exists e | e in entries :: ParseCertificate(rules, e) == ValueError
  }

  lemma {:induction false} SomeRaisesAppends(rules: Rules, a: seq<bytes>, b: seq<bytes>)
    ensures SomeRaises(rules, a + b) <==> SomeRaises(rules, a) || SomeRaises(rules, b)
  {
    hide ParseCertificate;
    assert forall e :: e in a + b <==> e in a || e in b;
  }

  lemma {:induction false} EntriesRaise(rules: Rules, kind: bytes, entries: seq<bytes>, r: Report)
    ensures AddEntries(rules, kind, entries, r) == None <==> SomeRaises(rules, IfKind(kind, entries, X509))
    decreases |entries|
  {
    hide ParseCertificate;
    if entries != [] {
      var t := AddEntry(rules, kind, entries[0], r);
      if t.Some? {
        EntriesRaise(rules, kind, entries[1..], t.value);
      }
      assert entries == [entries[0]] + entries[1..];
      SomeRaisesAppends(rules, [entries[0]], entries[1..]);
    }
  }

  lemma {:induction false} ListsRaise(rules: Rules, ls: seq<SigList>, r: Report)
    ensures AddLists(rules, ls, r) == None <==> SomeRaises(rules, OfKind(ls, X509))
    decreases |ls|
  {
    hide AddEntries, SomeRaises, IfKind;
    if ls == [] {
      NothingRaises(rules);
    } else {
      var t := AddEntries(rules, ls[0].kind, ls[0].entries, Begun(ls[0], r));
      EntriesRaise(rules, ls[0].kind, ls[0].entries, Begun(ls[0], r));
      SomeRaisesAppends(rules, IfKind(ls[0].kind, ls[0].entries, X509), OfKind(ls[1..], X509));
      if t.Some? {
        ListsRaise(rules, ls[1..], t.value);
      }
    }
  }

  lemma {:induction false} NothingRaises(rules: Rules)
    ensures !SomeRaises(rules, [])
  {
  }

  /** On any bytes: no report comes back if and only if, in the lists that are accepted, some whole entry of
      type X.509 makes the certificate parser fail with a plain ValueError. */
  lemma {:induction false} RaisesIffEntry(rules: Rules, data: bytes)
    ensures Parse(rules, data) == None <==>
            exists e | e in OfKind(Lists(data, 0).lists, X509) :: ParseCertificate(rules, e) == ValueError
  {
    hide Lists, AddLists, OfKind, ParseCertificate;
    ListsRaise(rules, Lists(data, 0).lists, NOTHING);
  }

  /** Where no OID has too long an arc, that is so if and only if the elements of some such entry read up to its
      validity and its first time that is not accepted has no year. */
  lemma {:induction false} RaisesIffBadYear(rules: Rules, data: bytes)
    requires forall e | e in OfKind(Lists(data, 0).lists, X509) :: CertificateErrors.ArcsWritable(rules, e)
    ensures Parse(rules, data) == None <==>
            exists e | e in OfKind(Lists(data, 0).lists, X509) :: CertificateErrors.HasBadYear(rules, e)
  {
    hide Lists, Parse, OfKind, ParseCertificate, CertificateErrors.HasBadYear, CertificateErrors.ArcsWritable;
    RaisesIffEntry(rules, data);
    forall e | e in OfKind(Lists(data, 0).lists, X509)
      ensures ParseCertificate(rules, e) == ValueError <==> CertificateErrors.HasBadYear(rules, e)
    {
      CertificateErrors.RaisesIffNoYear(rules, e);
    }
  }

  // A list with one certificate, whose year is no number.
  function BadYearList(owner: bytes): bytes {
    X509 + (Put32(Little, 99) + (Put32(Little, 0) + (Put32(Little, 71)
    + (owner + CertificateWalk.Sample(Der.OID, CertificateWalk.NO_YEAR)))))
  }

  lemma {:induction false} SampleSize()
    ensures |CertificateWalk.Sample(Der.OID, CertificateWalk.NO_YEAR)| == 55
  {
  }

  lemma {:induction false} BadYearListReads(owner: bytes, rest: bytes)
    requires |owner| == GUID
    ensures var sample := CertificateWalk.Sample(Der.OID, CertificateWalk.NO_YEAR);
            ListAt(BadYearList(owner) + rest, 0) == Some(SigList(X509, [sample], false, 99))
  {
    hide U32, Put32;
    var sample := CertificateWalk.Sample(Der.OID, CertificateWalk.NO_YEAR);
    SampleSize();
    var data := BadYearList(owner) + rest;
    hide CertificateWalk.Sample;
    FieldReads(data, 16, 99);
    FieldReads(data, 20, 0);
    FieldReads(data, 24, 71);
    assert data[..16] == X509 && data[44..99] == sample;
    assert EntriesFrom(data, 99, 99, 71) == [];
    assert EntriesFrom(data, 28, 99, 71) == [data[44..99]] + [] == [sample];
    assert data[0..0 + GUID] == data[..16];
  }

  lemma {:induction false} FieldReads(data: bytes, at: nat, n: nat)
    requires at + 4 <= |data| && n < TWO_32 && data[at..at + 4] == Put32(Little, n)
    ensures U32(Little, data, at) == n
  {
    U32Slice(Little, data, at);
  }

  /** A UTCTime that starts with "XX" in one certificate is enough: whatever follows, nothing is reported. */
  lemma {:induction false} BadYearReportsNothing(rules: Rules, owner: bytes, rest: bytes)
    requires |owner| == GUID
    ensures Parse(rules, BadYearList(owner) + rest) == None
  {
    var sample := CertificateWalk.Sample(Der.OID, CertificateWalk.NO_YEAR);
    var data := BadYearList(owner) + rest;
    CertificateWalk.BadYearRaises(rules);
    BadYearListReads(owner, rest);
    hide CertificateWalk.Sample, BadYearList, ListAt, ParseCertificate;
    RaisesIffEntry(rules, data);
    var l := ListAt(data, 0).value;
    var lists := Lists(data, 0).lists;
    assert lists[0] == l && sample in l.entries;
    assert sample in OfKind(lists, X509);
  }

  // ---- Conservation ----

  function Total(r: Report): nat {
    |r.certificates| + r.unparsable + r.hashes + r.rsaKeys + |r.other|
  }

  function EntryCount(ls: seq<SigList>): nat {
    if ls == [] then 0 else |ls[0].entries| + EntryCount(ls[1..])
  }

  lemma {:induction false} EntryCounted(rules: Rules, kind: bytes, payload: bytes, r: Report)
    ensures var t := AddEntry(rules, kind, payload, r);
            t.Some? ==> Total(t.value) == Total(r) + 1
  {
    hide ParseCertificate;
  }

  lemma {:induction false} EntriesCounted(rules: Rules, kind: bytes, entries: seq<bytes>, r: Report)
    ensures var t := AddEntries(rules, kind, entries, r);
            t.Some? ==> Total(t.value) == Total(r) + |entries|
    decreases |entries|
  {
    hide AddEntry, Total;
    if entries != [] {
      EntryCounted(rules, kind, entries[0], r);
      var t := AddEntry(rules, kind, entries[0], r);
      if t.Some? {
        EntriesCounted(rules, kind, entries[1..], t.value);
      }
    }
  }

  lemma {:induction false} ListsCounted(rules: Rules, ls: seq<SigList>, r: Report)
    ensures var t := AddLists(rules, ls, r);
            t.Some? ==> Total(t.value) == Total(r) + EntryCount(ls)
    decreases |ls|
  {
    hide AddEntries;
    if ls != [] {
      EntriesCounted(rules, ls[0].kind, ls[0].entries, Begun(ls[0], r));
      var t := AddEntries(rules, ls[0].kind, ls[0].entries, Begun(ls[0], r));
      if t.Some? {
        ListsCounted(rules, ls[1..], t.value);
      }
    }
  }

  lemma {:induction false} EntriesFill(data: bytes, at: nat, end: nat, size: nat)
    requires at <= end <= |data| && size >= GUID
    ensures |EntriesFrom(data, at, end, size)| * size + (end - at) % size == end - at
    decreases end - at
  {
    if at + size <= end {
      EntriesFill(data, at + size, end, size);
      var rest := EntriesFrom(data, at + size, end, size);
      assert |EntriesFrom(data, at, end, size)| == |rest| + 1;
      hide EntriesFrom;
      OneMoreFills(|rest|, end - at - size, size);
    } else {
      NoneFill(end - at, size);
    }
  }

  lemma {:induction false} NoneFill(x: nat, m: nat)
    requires x < m
    ensures 0 * m + x % m == x
  {
  }

  lemma {:induction false} OneMoreFills(k: nat, x: nat, m: nat)
    requires m > 0 && k * m + x % m == x
    ensures (k + 1) * m + (x + m) % m == x + m
  {
    assert (k + 1) * m == k * m + m;
    ModStep(k, x % m, m);
  }

  // What is left over does not depend on how many whole entries come before it.
  lemma {:induction false} ModStep(k: nat, r: nat, m: nat)
    requires r < m
    ensures (k * m + r + m) % m == r
  {
    var q := (k * m + r + m) / m;
    var s := (k * m + r + m) % m;
    assert (k + 1) * m == k * m + m;
    assert (k + 1) * m + r == q * m + s;
    if q < k + 1 {
      TimesGrows(q, k + 1, m);
    } else if k + 1 < q {
      TimesGrows(k + 1, q, m);
    }
  }

  lemma {:induction false} TimesGrows(a: nat, b: nat, m: nat)
    requires a < b
    ensures a * m + m <= b * m
    decreases b
  {
    if b == a + 1 {
      assert (a + 1) * m == a * m + m;
    } else {
      TimesGrows(a, b - 1, m);
      assert (b - 1) * m == b * m - m;
    }
  }

  // A list that is accepted holds as many entries as fit between its header and its end.
  lemma {:induction false} EntriesAreWhole(data: bytes, pos: nat)
    requires ListAt(data, pos).Some?
    ensures var l := ListAt(data, pos).value;
            var first, size := pos + LIST_HEADER + U32(Little, data, pos + 20), U32(Little, data, pos + 24);
            && |l.entries| * size <= l.end - first < (|l.entries| + 1) * size
            && (l.partial <==> |l.entries| * size < l.end - first)
  {
    hide U32;
    var l := ListAt(data, pos).value;
    EntriesFill(data, pos + LIST_HEADER + U32(Little, data, pos + 20), l.end, U32(Little, data, pos + 24));
  }

  /** On any bytes for which a report comes back: certificates, unparsable certificate entries, hashes, keys and
      others together number exactly the whole entries of the lists that were accepted. */
  lemma {:induction false} NothingIsLost(rules: Rules, data: bytes)
    ensures var r := Parse(rules, data);
            r.Some? ==> Total(r.value) == EntryCount(Lists(data, 0).lists)
  {
    hide Lists, AddLists, EntryCount;
    ListsCounted(rules, Lists(data, 0).lists, NOTHING);
  }

  // ---- What each count counts ----

  // The certificates of those the parser accepts.
  function Accepted(rules: Rules, entries: seq<bytes>): seq<Certificate> {
    if entries == [] then []
    else
      (match ParseCertificate(rules, entries[0]) case Done(c) => [c] case _ => []) + Accepted(rules, entries[1..])
  }

  // The number of those it refuses with DERError.
  function Refused(rules: Rules, entries: seq<bytes>): nat {
    if entries == [] then 0
    else (if ParseCertificate(rules, entries[0]) == DerError then 1 else 0) + Refused(rules, entries[1..])
  }

  function Partials(ls: seq<SigList>): nat {
    if ls == [] then 0 else (if ls[0].partial then 1 else 0) + Partials(ls[1..])
  }

  predicate IsKnown(kind: bytes) {
    kind == X509 || kind == SHA256 || kind == RSA2048
  }

  // `t` is `r` with the certificates, hashes, keys and entries of type `k` added, and no more partial lists.
  ghost predicate Grown(rules: Rules, r: Report, t: Report, certs: seq<bytes>, hashes: nat, keys: nat, k: bytes,
                        others: nat) {
    && t.certificates == r.certificates + Accepted(rules, certs)
    && t.unparsable == r.unparsable + Refused(rules, certs)
    && t.hashes == r.hashes + hashes && t.rsaKeys == r.rsaKeys + keys
    && t.other[k] == r.other[k] + (if IsKnown(k) then 0 else others)
  }

  lemma {:induction false} AcceptedAppends(rules: Rules, a: seq<bytes>, b: seq<bytes>)
    ensures Accepted(rules, a + b) == Accepted(rules, a) + Accepted(rules, b)
    ensures Refused(rules, a + b) == Refused(rules, a) + Refused(rules, b)
    decreases |a|
  {
    hide ParseCertificate;
    if a == [] {
      assert a + b == b;
    } else {
      assert (a + b)[1..] == a[1..] + b;
      AcceptedAppends(rules, a[1..], b);
    }
  }

  lemma {:induction false} KindsDiffer()
    ensures X509 != SHA256 && X509 != RSA2048 && SHA256 != RSA2048
  {
    assert X509[0] != SHA256[0] && X509[0] != RSA2048[0] && SHA256[0] != RSA2048[0];
  }

  lemma {:induction false} EntryByKind(rules: Rules, kind: bytes, e: bytes, r: Report, k: bytes)
    ensures var t := AddEntry(rules, kind, e, r);
            t.Some? ==>
              && t.value.partials == r.partials
              && Grown(rules, r, t.value, IfKind(kind, [e], X509), |IfKind(kind, [e], SHA256)|,
                       |IfKind(kind, [e], RSA2048)|, k, |IfKind(kind, [e], k)|)
  {
    hide ParseCertificate;
    KindsDiffer();
    OneAccepted(rules, e);
    hide Accepted, Refused;
    assert r.certificates + [] == r.certificates;
  }

  lemma {:induction false} OneAccepted(rules: Rules, e: bytes)
    ensures Accepted(rules, [e]) == match ParseCertificate(rules, e) case Done(c) => [c] case _ => []
    ensures Refused(rules, [e]) == if ParseCertificate(rules, e) == DerError then 1 else 0
    ensures Accepted(rules, []) == [] && Refused(rules, []) == 0
  {
    hide ParseCertificate;
    assert [e][1..] == [];
  }

  lemma {:induction false} GrownTwice(
    rules: Rules, r: Report, t: Report, u: Report, certs1: seq<bytes>, certs2: seq<bytes>, hashes1: nat, hashes2: nat,
    keys1: nat, keys2: nat, k: bytes, others1: nat, others2: nat)
    requires Grown(rules, r, t, certs1, hashes1, keys1, k, others1)
    requires Grown(rules, t, u, certs2, hashes2, keys2, k, others2)
    ensures Grown(rules, r, u, certs1 + certs2, hashes1 + hashes2, keys1 + keys2, k, others1 + others2)
  {
    AcceptedAppends(rules, certs1, certs2);
    hide Accepted, Refused, IsKnown;
    assert r.certificates + Accepted(rules, certs1) + Accepted(rules, certs2) ==
           r.certificates + (Accepted(rules, certs1) + Accepted(rules, certs2));
  }

  lemma {:induction false} NothingGrows(rules: Rules, r: Report, k: bytes)
    ensures Grown(rules, r, r, [], 0, 0, k, 0)
  {
    assert r.certificates + [] == r.certificates;
  }

  lemma {:induction false} IfKindSplits(kind: bytes, entries: seq<bytes>, asked: bytes)
    requires entries != []
    ensures IfKind(kind, entries, asked) == IfKind(kind, [entries[0]], asked) + IfKind(kind, entries[1..], asked)
    ensures |IfKind(kind, entries, asked)| == |IfKind(kind, [entries[0]], asked)| + |IfKind(kind, entries[1..], asked)|
  {
  }

  lemma {:induction false} EntriesByKind(rules: Rules, kind: bytes, entries: seq<bytes>, r: Report, k: bytes)
    ensures var t := AddEntries(rules, kind, entries, r);
            t.Some? ==>
              && t.value.partials == r.partials
              && Grown(rules, r, t.value, IfKind(kind, entries, X509), |IfKind(kind, entries, SHA256)|,
                       |IfKind(kind, entries, RSA2048)|, k, |IfKind(kind, entries, k)|)
    decreases |entries|
  {
    if entries == [] {
      NothingGrows(rules, r, k);
    } else {
      var e, rest := entries[0], entries[1..];
      var t := AddEntry(rules, kind, e, r);
      IfKindSplits(kind, entries, X509);
      IfKindSplits(kind, entries, SHA256);
      IfKindSplits(kind, entries, RSA2048);
      IfKindSplits(kind, entries, k);
      EntryByKind(rules, kind, e, r, k);
      hide Grown, AddEntry, IfKind;
      if t.Some? && AddEntries(rules, kind, entries, r).Some? {
        EntriesByKind(rules, kind, rest, t.value, k);
        GrownTwice(rules, r, t.value, AddEntries(rules, kind, rest, t.value).value,
                   IfKind(kind, [e], X509), IfKind(kind, rest, X509), |IfKind(kind, [e], SHA256)|,
                   |IfKind(kind, rest, SHA256)|, |IfKind(kind, [e], RSA2048)|, |IfKind(kind, rest, RSA2048)|,
                   k, |IfKind(kind, [e], k)|, |IfKind(kind, rest, k)|);
      }
    }
  }

  // A partial list shows nowhere but in its own count.
  lemma {:induction false} BegunGrows(rules: Rules, l: SigList, r: Report, t: Report, certs: seq<bytes>, hashes: nat,
                                      keys: nat, k: bytes, others: nat)
    requires Grown(rules, Begun(l, r), t, certs, hashes, keys, k, others)
    ensures Grown(rules, r, t, certs, hashes, keys, k, others)
  {
  }

  lemma {:induction false} ListsByKind(rules: Rules, ls: seq<SigList>, r: Report, k: bytes)
    ensures var t := AddLists(rules, ls, r);
            t.Some? ==>
              && t.value.partials == r.partials + Partials(ls)
              && Grown(rules, r, t.value, OfKind(ls, X509), |OfKind(ls, SHA256)|, |OfKind(ls, RSA2048)|,
                       k, |OfKind(ls, k)|)
    decreases |ls|
  {
    if ls == [] {
      NothingGrows(rules, r, k);
    } else {
      var l, rest := ls[0], ls[1..];
      hide Grown, AddEntries, IfKind;
      var t := AddEntries(rules, l.kind, l.entries, Begun(l, r));
      EntriesByKind(rules, l.kind, l.entries, Begun(l, r), k);
      if t.Some? && AddLists(rules, ls, r).Some? {
        ListsByKind(rules, rest, t.value, k);
        var hashes, keys := |IfKind(l.kind, l.entries, SHA256)|, |IfKind(l.kind, l.entries, RSA2048)|;
        var certs, others := IfKind(l.kind, l.entries, X509), |IfKind(l.kind, l.entries, k)|;
        BegunGrows(rules, l, r, t.value, certs, hashes, keys, k, others);
        GrownTwice(rules, r, t.value, AddLists(rules, rest, t.value).value, certs, OfKind(rest, X509), hashes,
                   |OfKind(rest, SHA256)|, keys, |OfKind(rest, RSA2048)|, k, others, |OfKind(rest, k)|);
      }
    }
  }

  /** On any bytes for which a report comes back, each field of it is about the entries of its own type in the
      accepted lists: the certificates those the parser accepts, in order, and every other count the number of
      entries. */
  lemma {:induction false} KindsAreCounted(rules: Rules, data: bytes, k: bytes)
    requires Parse(rules, data).Some?
    ensures var r, ls := Parse(rules, data).value, Lists(data, 0).lists;
            && r.certificates == Accepted(rules, OfKind(ls, X509)) && r.unparsable == Refused(rules, OfKind(ls, X509))
            && r.hashes == |OfKind(ls, SHA256)| && r.rsaKeys == |OfKind(ls, RSA2048)|
            && r.other[k] == (if IsKnown(k) then 0 else |OfKind(ls, k)|)
            && r.partials == Partials(ls)
  {
    hide Lists, AddLists, OfKind, Accepted, Refused, Partials;
    var ls := Lists(data, 0).lists;
    ListsByKind(rules, ls, NOTHING, k);
    assert [] + Accepted(rules, OfKind(ls, X509)) == Accepted(rules, OfKind(ls, X509));
  }

  // ---- Concatenation ----

  function Moved(ls: seq<SigList>, shift: nat): seq<SigList> {
    if ls == [] then [] else [ls[0].(end := ls[0].end + shift)] + Moved(ls[1..], shift)
  }

  // `data` holds `part` from `shift` on.
  ghost predicate Contains(data: bytes, part: bytes, shift: nat) {
    shift + |part| <= |data| && data[shift..shift + |part|] == part
  }

  lemma {:induction false} SameSlice(data: bytes, part: bytes, shift: nat, i: nat, j: nat)
    requires Contains(data, part, shift) && i <= j <= |part|
    ensures data[shift + i..shift + j] == part[i..j]
  {
    SliceOfSlice(data, shift, shift + |part|, i, j);
  }

  lemma {:induction false} EntriesMoved(data: bytes, part: bytes, shift: nat, at: nat, end: nat, size: nat)
    requires Contains(data, part, shift) && at <= end <= |part| && size >= GUID
    ensures EntriesFrom(data, shift + at, shift + end, size) == EntriesFrom(part, at, end, size)
    decreases end - at
  {
    hide Contains;
    assert shift + |part| <= |data| by { Inside(data, part, shift); }
    if at + size <= end {
      SameSlice(data, part, shift, at + GUID, at + size);
      EntriesMoved(data, part, shift, at + size, end, size);
    }
  }

  lemma {:induction false} Inside(data: bytes, part: bytes, shift: nat)
    requires Contains(data, part, shift)
    ensures shift + |part| <= |data|
  {
  }

  lemma {:induction false} ListMoved(data: bytes, part: bytes, shift: nat, pos: nat)
    requires Contains(data, part, shift) && ListAt(part, pos).Some?
    ensures ListAt(data, shift + pos) == Some(ListAt(part, pos).value.(end := shift + ListAt(part, pos).value.end))
  {
    hide U32, EntriesFrom, Contains;
    Inside(data, part, shift);
    SameSlice(data, part, shift, pos, pos + GUID);
    FieldMoved(data, part, shift, pos + 16);
    FieldMoved(data, part, shift, pos + 20);
    FieldMoved(data, part, shift, pos + 24);
    EntriesMoved(data, part, shift, pos + LIST_HEADER + U32(Little, part, pos + 20), ListAt(part, pos).value.end,
                 U32(Little, part, pos + 24));
  }

  lemma {:induction false} FieldMoved(data: bytes, part: bytes, shift: nat, at: nat)
    requires Contains(data, part, shift) && at + 4 <= |part|
    ensures shift + at + 4 <= |data| && U32(Little, data, shift + at) == U32(Little, part, at)
  {
    hide U32;
    SameSlice(data, part, shift, at, at + 4);
    U32Slice(Little, data, shift + at);
    U32Slice(Little, part, at);
  }

  // A walk of `part` that is not stopped goes through it and on behind it.
  lemma {:induction false} WalkContinues(data: bytes, part: bytes, shift: nat, pos: nat)
    requires Contains(data, part, shift) && pos <= |part| && !Lists(part, pos).stopped
    ensures var rest := Lists(data, shift + |part|);
            Lists(data, shift + pos) == Walk(Moved(Lists(part, pos).lists, shift) + rest.lists, rest.stopped)
    decreases |part| - pos
  {
    hide ListAt, Contains;
    Inside(data, part, shift);
    var rest := Lists(data, shift + |part|);
    if pos == |part| {
      assert [] + rest.lists == rest.lists;
    } else {
      ListMoved(data, part, shift, pos);
      var l := ListAt(part, pos).value;
      WalkContinues(data, part, shift, l.end);
      var tail := Lists(part, l.end).lists;
      assert ([l] + tail)[1..] == tail;
      assert [l.(end := l.end + shift)] + (Moved(tail, shift) + rest.lists) ==
             ([l.(end := l.end + shift)] + Moved(tail, shift)) + rest.lists;
    }
  }

  lemma {:induction false} MovedReports(rules: Rules, ls: seq<SigList>, shift: nat, r: Report)
    ensures AddLists(rules, Moved(ls, shift), r) == AddLists(rules, ls, r)
    decreases |ls|
  {
    hide AddEntries;
    if ls != [] {
      var m := Moved(ls, shift);
      assert m[1..] == Moved(ls[1..], shift);
      var t := AddEntries(rules, ls[0].kind, ls[0].entries, Begun(ls[0], r));
      if t.Some? {
        MovedReports(rules, ls[1..], shift, t.value);
      }
    }
  }

  lemma {:induction false} ListsAppendReports(rules: Rules, a: seq<SigList>, b: seq<SigList>, r: Report)
    ensures AddLists(rules, a + b, r) ==
            match AddLists(rules, a, r) case None => None case Some(t) => AddLists(rules, b, t)
    decreases |a|
  {
    hide AddEntries;
    if a == [] {
      assert a + b == b;
    } else {
      assert (a + b)[1..] == a[1..] + b;
      var t := AddEntries(rules, a[0].kind, a[0].entries, Begun(a[0], r));
      if t.Some? {
        ListsAppendReports(rules, a[1..], b, t.value);
      }
    }
  }

  lemma {:induction false} MoreLists(data: bytes, shift: nat, part: bytes, pos: nat)
    requires Contains(data, part, shift) && shift + |part| == |data| && pos <= |part|
    ensures Lists(data, shift + pos) == Walk(Moved(Lists(part, pos).lists, shift), Lists(part, pos).stopped)
    decreases |part| - pos
  {
    hide Contains, U32;
    if pos < |part| {
      if ListAt(part, pos).Some? {
        ListMoved(data, part, shift, pos);
        var l := ListAt(part, pos).value;
        MoreLists(data, shift, part, l.end);
        var tail := Lists(part, l.end).lists;
        assert ([l] + tail)[1..] == tail;
      } else {
        NotMoved(data, shift, part, pos);
      }
    }
  }

  lemma {:induction false} NotMoved(data: bytes, shift: nat, part: bytes, pos: nat)
    requires Contains(data, part, shift) && shift + |part| == |data| && ListAt(part, pos).None?
    ensures ListAt(data, shift + pos).None?
  {
    hide U32, Contains, EntriesFrom;
    if pos + LIST_HEADER <= |part| {
      FieldMoved(data, part, shift, pos + 16);
      FieldMoved(data, part, shift, pos + 20);
      FieldMoved(data, part, shift, pos + 24);
    }
  }

  // The certificates of one report and then of another, every count the sum.
  function Plus(r: Report, t: Report): Report {
    Report(r.certificates + t.certificates, r.unparsable + t.unparsable, r.hashes + t.hashes, r.rsaKeys + t.rsaKeys,
           r.other + t.other, r.partials + t.partials, t.stopped)
  }

  function PlusIf(r: Report, t: Option<Report>): Option<Report> {
    match t case None => None case Some(u) => Some(Plus(r, u))
  }

  lemma {:induction false} EntryAdds(rules: Rules, kind: bytes, payload: bytes, r: Report, t: Report)
    ensures AddEntry(rules, kind, payload, Plus(r, t)) == PlusIf(r, AddEntry(rules, kind, payload, t))
  {
    hide ParseCertificate;
    forall c: Certificate ensures r.certificates + t.certificates + [c] == r.certificates + (t.certificates + [c]) {}
    assert r.other + t.other + multiset{kind} == r.other + (t.other + multiset{kind});
  }

  lemma {:induction false} EntriesAdd(rules: Rules, kind: bytes, entries: seq<bytes>, r: Report, t: Report)
    ensures AddEntries(rules, kind, entries, Plus(r, t)) == PlusIf(r, AddEntries(rules, kind, entries, t))
    decreases |entries|
  {
    hide AddEntry, Plus;
    if entries != [] {
      EntryAdds(rules, kind, entries[0], r, t);
      var u := AddEntry(rules, kind, entries[0], t);
      if u.Some? {
        EntriesAdd(rules, kind, entries[1..], r, u.value);
      }
    }
  }

  lemma {:induction false} ListsAdd(rules: Rules, ls: seq<SigList>, r: Report, t: Report)
    ensures AddLists(rules, ls, Plus(r, t)) == PlusIf(r, AddLists(rules, ls, t))
    decreases |ls|
  {
    hide AddEntries;
    if ls != [] {
      var l := ls[0];
      assert Begun(l, Plus(r, t)) == Plus(r, Begun(l, t));
      hide Plus, Begun;
      EntriesAdd(rules, l.kind, l.entries, r, Begun(l, t));
      var u := AddEntries(rules, l.kind, l.entries, Begun(l, t));
      if u.Some? {
        ListsAdd(rules, ls[1..], r, u.value);
      }
    }
  }

  lemma {:induction false} PlusNothing(r: Report)
    requires !r.stopped
    ensures Plus(r, NOTHING) == r
  {
    assert r.certificates + [] == r.certificates;
  }

  /** If the walk of a reaches its end, a ++ b is reported as a is and then b: the certificates of both in order,
      every count the sum, stopped exactly where b is, and nothing reported if either reports nothing. */
  lemma {:induction false} ParseAppends(rules: Rules, a: bytes, b: bytes)
    requires !Lists(a, 0).stopped
    ensures Lists(a + b, 0) == Walk(Lists(a, 0).lists + Moved(Lists(b, 0).lists, |a|), Lists(b, 0).stopped)
    ensures Parse(rules, a + b) ==
            match Parse(rules, a) case None => None case Some(r) => PlusIf(r, Parse(rules, b))
  {
    hide Lists, AddLists, Moved;
    WholeWalk(a, b);
    var la, lb := Lists(a, 0).lists, Lists(b, 0).lists;
    ListsAppendReports(rules, la, Moved(lb, |a|), NOTHING);
    AddListsKeepsStopped(rules, la, NOTHING);
    var ra := AddLists(rules, la, NOTHING);
    if ra.Some? {
      MovedReports(rules, lb, |a|, ra.value);
      PlusNothing(ra.value);
      ListsAdd(rules, lb, ra.value, NOTHING);
    }
  }

  lemma {:induction false} BothContained(a: bytes, b: bytes)
    ensures Contains(a + b, a, 0) && Contains(a + b, b, |a|)
  {
    assert (a + b)[0..0 + |a|] == a && (a + b)[|a|..|a| + |b|] == b;
  }

  lemma {:induction false} WholeWalk(a: bytes, b: bytes)
    requires !Lists(a, 0).stopped
    ensures Lists(a + b, 0) == Walk(Lists(a, 0).lists + Moved(Lists(b, 0).lists, |a|), Lists(b, 0).stopped)
  {
    hide Lists, Contains, Moved;
    var data := a + b;
    BothContained(a, b);
    WalkContinues(data, a, 0, 0);
    MoreLists(data, |a|, b, 0);
    NotShifted(Lists(a, 0).lists);
  }

  lemma {:induction false} NotShifted(ls: seq<SigList>)
    ensures Moved(ls, 0) == ls
    decreases |ls|
  {
    if ls != [] {
      NotShifted(ls[1..]);
      assert ls == [ls[0]] + ls[1..];
    }
  }
}
