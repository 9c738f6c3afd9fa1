/** The JKS keystore reader: public certificates in the clear, encrypted keys skipped by length. */
module Jks {
  import opened Bytes
  import opened Options

  const MAGIC: nat := 0xFEED_FEED
  const MAX_ENTRIES: nat := 100_000
  const TIMESTAMP: nat := 8

  // A value read, and the position after it.
  datatype Read<+T> = Read(value: T, next: nat)

  // ---- The reader ----

  function ReadU32(data: bytes, pos: nat): (r: Option<Read<nat>>)
    ensures r.Some? ==> r.value.next == pos + 4 <= |data|
  {
    if pos + 4 > |data| then None else Some(Read(U32(Big, data, pos), pos + 4))
  }

  // The position after a string; it may lie past the end.
  function SkipUtf(data: bytes, pos: nat): (r: Option<nat>)
    ensures r.Some? ==> r.value >= pos + 2
  {
    if pos + 2 > |data| then None else Some(pos + 2 + U16(Big, data, pos))
  }

  function Blob(data: bytes, pos: nat): (r: Option<Read<bytes>>)
    ensures r.Some? ==> pos + 4 <= r.value.next <= |data|
  {
    var n :- ReadU32(data, pos);
    if n.next + n.value > |data| then None else Some(Read(data[n.next..n.next + n.value], n.next + n.value))
  }

  // A certificate with the type string before it.
  function TypedBlob(data: bytes, pos: nat): (r: Option<Read<bytes>>)
    ensures r.Some? ==> pos < r.value.next <= |data|
  {
    var at :- SkipUtf(data, pos);
    Blob(data, at)
  }

  function Chain(data: bytes, pos: nat, count: nat): Option<Read<seq<bytes>>>
    decreases count
  {
    if count == 0 then Some(Read([], pos))
    else
      var first :- TypedBlob(data, pos);
      var rest :- Chain(data, first.next, count - 1);
      Some(Read([first.value] + rest.value, rest.next))
  }

  datatype Found = Found(certs: seq<bytes>, privateEntries: nat)

  function KeyEntry(data: bytes, pos: nat): Option<Read<Found>> {
    var n :- ReadU32(data, pos);
    var count :- ReadU32(data, n.next + n.value);
    var chain :- Chain(data, count.next, count.value);
    Some(Read(Found(chain.value, 1), chain.next))
  }

  function Entry(data: bytes, pos: nat): Option<Read<Found>> {
    var tag :- ReadU32(data, pos);
    var alias :- SkipUtf(data, tag.next);
    var at := alias + TIMESTAMP;
    if tag.value == 1 then KeyEntry(data, at)
    else if tag.value == 2 then
      var cert :- TypedBlob(data, at);
      Some(Read(Found([cert.value], 0), cert.next))
    else None
  }

  function Both(a: Found, b: Found): Found {
    Found(a.certs + b.certs, a.privateEntries + b.privateEntries)
  }

  function Entries(data: bytes, pos: nat, count: nat): Option<Found>
    decreases count
  {
    if count == 0 then Some(Found([], 0))
    else
      var first :- Entry(data, pos);
      var rest :- Entries(data, first.next, count - 1);
      Some(Both(first.value, rest))
  }

  function Parse(data: bytes): Option<Found> {
    var magic :- ReadU32(data, 0);
    if magic.value != MAGIC then None
    else
      var version :- ReadU32(data, 4);
      if version.value != 1 && version.value != 2 then None
      else
        var count :- ReadU32(data, 8);
        if count.value > MAX_ENTRIES then None else Entries(data, 12, count.value)
  }

  // ---- The loops ----

  method ReadChain(data: bytes, start: nat, count: nat) returns (r: Option<Read<seq<bytes>>>)
    ensures r == Chain(data, start, count)
  {
    hide TypedBlob;
    var certs: seq<bytes> := [];
    var pos, i := start, 0;
    ghost var whole := Chain(data, start, count);
    assert whole.Some? ==> [] + whole.value.value == whole.value.value;
    while i < count
      invariant i <= count
      invariant whole == match Chain(data, pos, count - i)
                         case None => None
                         case Some(rest) => Some(Read(certs + rest.value, rest.next))
    {
      var cert := TypedBlob(data, pos);
      if cert.None? {
        return None;
      }
      ghost var rest := Chain(data, cert.value.next, count - i - 1);
      if rest.Some? {
        assert certs + ([cert.value.value] + rest.value.value) == (certs + [cert.value.value]) + rest.value.value;
      }
      certs := certs + [cert.value.value];
      pos := cert.value.next;
      i := i + 1;
    }
    assert certs + [] == certs;
    r := Some(Read(certs, pos));
  }

  /** The entry loop. */
  method ParseJksCertificates(data: bytes) returns (r: Option<Found>)
    ensures r == Parse(data)
  {
    hide ReadU32, SkipUtf, TypedBlob, Chain;
    var magic :- ReadU32(data, 0);
    if magic.value != MAGIC {
      return None;
    }
    var version :- ReadU32(data, 4);
    if version.value != 1 && version.value != 2 {
      return None;
    }
    var count :- ReadU32(data, 8);
    if count.value > MAX_ENTRIES {
      return None;
    }
    var found := Found([], 0);
    var pos, i := 12, 0;
    ghost var whole := Entries(data, 12, count.value);
    assert whole.Some? ==> Both(found, whole.value) == whole.value by {
      assert whole.Some? ==> [] + whole.value.certs == whole.value.certs;
    }
    while i < count.value
      invariant i <= count.value
      invariant whole == match Entries(data, pos, count.value - i)
                         case None => None
                         case Some(rest) => Some(Both(found, rest))
    {
      var tag :- ReadU32(data, pos);
      var alias :- SkipUtf(data, tag.next);
      var at := alias + TIMESTAMP;
      ghost var before := found;
      if tag.value == 1 {
        var n :- ReadU32(data, at);
        var length :- ReadU32(data, n.next + n.value);
        var chain := ReadChain(data, length.next, length.value);
        if chain.None? {
          return None;
        }
        found := Found(found.certs + chain.value.value, found.privateEntries + 1);
        pos := chain.value.next;
        BothTwice(before, Found(chain.value.value, 1), Entries(data, pos, count.value - i - 1));
      } else if tag.value == 2 {
        var cert :- TypedBlob(data, at);
        found := Found(found.certs + [cert.value], found.privateEntries);
        pos := cert.next;
        BothTwice(before, Found([cert.value], 0), Entries(data, pos, count.value - i - 1));
      } else {
        return None;
      }
      i := i + 1;
    }
    assert found.certs + [] == found.certs;
    r := Some(found);
  }

  lemma {:induction false} BothTwice(a: Found, b: Found, rest: Option<Found>)
    ensures rest.Some? ==> Both(a, Both(b, rest.value)) == Both(Both(a, b), rest.value)
  {
    if rest.Some? {
      assert a.certs + (b.certs + rest.value.certs) == (a.certs + b.certs) + rest.value.certs;
    }
  }

  // ---- Keystores as they are written ----

  datatype TypedCert = TypedCert(kind: bytes, cert: bytes)

  datatype Item =
    | Trusted(alias: bytes, time: bytes, cert: TypedCert)
    | PrivateKey(alias: bytes, time: bytes, key: bytes, chain: seq<TypedCert>)

  predicate CertFits(c: TypedCert) {
    |c.kind| < 0x1_0000 && |c.cert| < TWO_32
  }

  ghost predicate ChainFits(cs: seq<TypedCert>) {
    |cs| < TWO_32 && forall i | 0 <= i < |cs| :: CertFits(cs[i])
  }

  ghost predicate Fits(i: Item) {
    && |i.alias| < 0x1_0000 && |i.time| == 8
    && match i
       case Trusted(_, _, cert) => CertFits(cert)
       case PrivateKey(_, _, key, chain) => |key| < TWO_32 && ChainFits(chain)
  }

  function PutUtf(s: bytes): bytes
    requires |s| < 0x1_0000
  {
    Put16(Big, |s|) + s
  }

  function PutBlob(s: bytes): bytes
    requires |s| < TWO_32
  {
    Put32(Big, |s|) + s
  }

  function PutCert(c: TypedCert): bytes
    requires CertFits(c)
  {
    PutUtf(c.kind) + PutBlob(c.cert)
  }

  function PutChain(cs: seq<TypedCert>): bytes
    requires forall i | 0 <= i < |cs| :: CertFits(cs[i])
  {
    if cs == [] then [] else PutCert(cs[0]) + PutChain(cs[1..])
  }

  function PutContent(i: Item): bytes
    requires Fits(i)
  {
    match i
    case Trusted(_, _, cert) => PutCert(cert)
    case PrivateKey(_, _, key, chain) => PutBlob(key) + (Put32(Big, |chain|) + PutChain(chain))
  }

  function PutItem(i: Item): bytes
    requires Fits(i)
  {
    Put32(Big, if i.PrivateKey? then 1 else 2) + (PutUtf(i.alias) + (i.time + PutContent(i)))
  }

  ghost predicate AllFit(items: seq<Item>) {
    |items| <= 100_000 && forall k | 0 <= k < |items| :: Fits(items[k])
  }

  function PutItems(items: seq<Item>): bytes
    requires AllFit(items)
  {
    if items == [] then [] else PutItem(items[0]) + PutItems(items[1..])
  }

  // A keystore with type strings, as version 2 has them, whichever version it says; `digest` is what follows
  // the entries.
  function Keystore(version: nat, items: seq<Item>, digest: bytes): bytes
    requires AllFit(items) && (version == 1 || version == 2)
  {
    Put32(Big, 0xFEED_FEED) + (Put32(Big, version) + (Put32(Big, |items|) + (PutItems(items) + digest)))
  }

  function Certs(cs: seq<TypedCert>): seq<bytes> {
    if cs == [] then [] else [cs[0].cert] + Certs(cs[1..])
  }

  function Content(i: Item): Found {
    match i
    case Trusted(_, _, cert) => Found([cert.cert], 0)
    case PrivateKey(_, _, _, chain) => Found(Certs(chain), 1)
  }

  function Contents(items: seq<Item>): Found {
    if items == [] then Found([], 0) else Both(Content(items[0]), Contents(items[1..]))
  }

  lemma {:induction false} U32Reads(data: bytes, pos: nat, n: nat, rest: bytes)
    requires n < TWO_32 && Lies(data, pos, Put32(Big, n) + rest)
    ensures ReadU32(data, pos) == Some(Read(n, pos + 4)) && Lies(data, pos + 4, rest)
  {
    hide U32, Put32;
    LiesSplit(data, pos, Put32(Big, n), rest);
    U32Slice(Big, data, pos);
  }

  lemma {:induction false} UtfReads(data: bytes, pos: nat, s: bytes, rest: bytes)
    requires |s| < 0x1_0000 && Lies(data, pos, PutUtf(s) + rest)
    ensures SkipUtf(data, pos) == Some(pos + |PutUtf(s)|) && Lies(data, pos + |PutUtf(s)|, rest)
  {
    hide U16, Put16;
    LiesSplit(data, pos, PutUtf(s), rest);
    LiesSplit(data, pos, Put16(Big, |s|), s);
    U16Slice(Big, data, pos);
  }

  lemma {:induction false} BlobReads(data: bytes, pos: nat, s: bytes, rest: bytes)
    requires |s| < TWO_32 && Lies(data, pos, PutBlob(s) + rest)
    ensures Blob(data, pos) == Some(Read(s, pos + |PutBlob(s)|)) && Lies(data, pos + |PutBlob(s)|, rest)
  {
    hide U32, Put32, ReadU32;
    LiesSplit(data, pos, PutBlob(s), rest);
    U32Reads(data, pos, |s|, s);
  }

  lemma {:induction false} CertReads(data: bytes, pos: nat, c: TypedCert, rest: bytes)
    requires CertFits(c) && Lies(data, pos, PutCert(c) + rest)
    ensures TypedBlob(data, pos) == Some(Read(c.cert, pos + |PutCert(c)|)) && Lies(data, pos + |PutCert(c)|, rest)
  {
    hide PutUtf, PutBlob, SkipUtf, Blob, Lies;
    assert PutCert(c) + rest == PutUtf(c.kind) + (PutBlob(c.cert) + rest);
    UtfReads(data, pos, c.kind, PutBlob(c.cert) + rest);
    BlobReads(data, pos + |PutUtf(c.kind)|, c.cert, rest);
  }

  lemma {:induction false} ChainReads(data: bytes, pos: nat, cs: seq<TypedCert>, rest: bytes)
    requires (forall i | 0 <= i < |cs| :: CertFits(cs[i])) && Lies(data, pos, PutChain(cs) + rest)
    ensures Chain(data, pos, |cs|) == Some(Read(Certs(cs), pos + |PutChain(cs)|))
    ensures Lies(data, pos + |PutChain(cs)|, rest)
    decreases |cs|
  {
    hide PutCert, TypedBlob, Lies;
    if cs == [] {
      assert PutChain(cs) + rest == rest;
    } else {
      assert PutChain(cs) + rest == PutCert(cs[0]) + (PutChain(cs[1..]) + rest);
      CertReads(data, pos, cs[0], PutChain(cs[1..]) + rest);
      ChainReads(data, pos + |PutCert(cs[0])|, cs[1..], rest);
    }
  }

  lemma {:induction false} KeyReads(data: bytes, pos: nat, i: Item, rest: bytes)
    requires Fits(i) && i.PrivateKey? && Lies(data, pos, PutContent(i) + rest)
    ensures KeyEntry(data, pos) == Some(Read(Content(i), pos + |PutContent(i)|))
    ensures Lies(data, pos + |PutContent(i)|, rest)
  {
    hide Put32, ReadU32, Chain, PutChain, Lies, U32;
    var chain := PutChain(i.chain) + rest;
    var s2 := Put32(Big, |i.chain|) + chain;
    assert PutContent(i) + rest == Put32(Big, |i.key|) + (i.key + s2);
    U32Reads(data, pos, |i.key|, i.key + s2);
    LiesSplit(data, pos + 4, i.key, s2);
    U32Reads(data, pos + 4 + |i.key|, |i.chain|, chain);
    ChainReads(data, pos + 8 + |i.key|, i.chain, rest);
  }

  lemma {:induction false} ItemReads(data: bytes, pos: nat, i: Item, rest: bytes)
    requires Fits(i) && Lies(data, pos, PutItem(i) + rest)
    ensures Entry(data, pos) == Some(Read(Content(i), pos + |PutItem(i)|)) && Lies(data, pos + |PutItem(i)|, rest)
  {
    hide Put32, PutUtf, ReadU32, SkipUtf, TypedBlob, KeyEntry, PutContent, Lies, U32, PutCert;
    var tag := if i.PrivateKey? then 1 else 2;
    var s3 := PutContent(i) + rest;
    var s2 := i.time + s3;
    var s1 := PutUtf(i.alias) + s2;
    assert PutItem(i) + rest == Put32(Big, tag) + s1;
    U32Reads(data, pos, tag, s1);
    UtfReads(data, pos + 4, i.alias, s2);
    var at := pos + 4 + |PutUtf(i.alias)|;
    LiesSplit(data, at, i.time, s3);
    if i.PrivateKey? {
      KeyReads(data, at + TIMESTAMP, i, rest);
    } else {
      TrustedContent(i);
      CertReads(data, at + TIMESTAMP, i.cert, rest);
    }
  }

  lemma {:induction false} TrustedContent(i: Item)
    requires Fits(i) && i.Trusted?
    ensures PutContent(i) == PutCert(i.cert)
  {
  }

  lemma {:induction false} ItemsRead(data: bytes, pos: nat, items: seq<Item>, rest: bytes)
    requires AllFit(items) && Lies(data, pos, PutItems(items) + rest)
    ensures Entries(data, pos, |items|) == Some(Contents(items))
    decreases |items|
  {
    hide PutItem, Entry, Lies, Fits, Content;
    if items != [] {
      assert Fits(items[0]);
      assert PutItems(items) + rest == PutItem(items[0]) + (PutItems(items[1..]) + rest);
      ItemReads(data, pos, items[0], PutItems(items[1..]) + rest);
      ItemsRead(data, pos + |PutItem(items[0])|, items[1..], rest);
    }
  }

  /** Reading a keystore gives exactly its certificates, in order, and the number of private-key entries. */
  lemma {:induction false} ParseRecovers(version: nat, items: seq<Item>, digest: bytes)
    requires AllFit(items) && (version == 1 || version == 2)
    ensures Parse(Keystore(version, items, digest)) == Some(Contents(items))
  {
    hide Put32, ReadU32, U32, Lies, PutItems, Contents, Entries;
    var data := Keystore(version, items, digest);
    var s2 := Put32(Big, |items|) + (PutItems(items) + digest);
    var s1 := Put32(Big, version) + s2;
    WholeLies(data);
    U32Reads(data, 0, 0xFEED_FEED, s1);
    U32Reads(data, 4, version, s2);
    U32Reads(data, 8, |items|, PutItems(items) + digest);
    ItemsRead(data, 12, items, digest);
  }

  lemma {:induction false} WholeLies(data: bytes)
    ensures Lies(data, 0, data)
  {
    assert data[0..|data|] == data;
  }

  // The same entries but for the bytes of the encrypted keys.
  ghost predicate SameButKeys(a: seq<Item>, b: seq<Item>) {
    |a| == |b| && forall k | 0 <= k < |a| ::
      b[k] == a[k] || (a[k].PrivateKey? && b[k].PrivateKey? && b[k] == a[k].(key := b[k].key))
  }

  lemma {:induction false} ContentsIgnoreKeys(a: seq<Item>, b: seq<Item>)
    requires SameButKeys(a, b)
    ensures Contents(a) == Contents(b)
    decreases |a|
  {
    if a != [] {
      assert b[0] == a[0] || b[0] == a[0].(key := b[0].key);
      ContentsIgnoreKeys(a[1..], b[1..]);
    }
  }

  /** The encrypted keys are not looked at: neither their bytes nor their lengths change what is read. */
  lemma {:induction false} KeysAreIrrelevant(version: nat, a: seq<Item>, b: seq<Item>, digest: bytes)
    requires AllFit(a) && AllFit(b) && SameButKeys(a, b) && (version == 1 || version == 2)
    ensures Parse(Keystore(version, a, digest)) == Parse(Keystore(version, b, digest))
  {
    hide Parse, Keystore;
    ParseRecovers(version, a, digest);
    ParseRecovers(version, b, digest);
    ContentsIgnoreKeys(a, b);
  }
}
