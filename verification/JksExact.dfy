/** What the keystore reader accepts is laid out as a keystore: nothing else parses. */
module JksExact {
  import opened Bytes
  import opened Options
  import opened Jks

  lemma {:induction false} SliceLies(data: bytes, i: nat, j: nat)
    requires i <= j <= |data|
    ensures Lies(data, i, data[i..j])
  {
  }

  lemma {:induction false} U32Is(data: bytes, pos: nat)
    requires pos + 4 <= |data|
    ensures Lies(data, pos, Put32(Big, U32(Big, data, pos)))
  {
    hide U32, Put32;
    Put32OfU32(Big, data, pos);
    SliceLies(data, pos, pos + 4);
  }

  // A string that is followed by something read.
  lemma {:induction false} UtfIs(data: bytes, pos: nat) returns (s: bytes)
    requires SkipUtf(data, pos).Some? && SkipUtf(data, pos).value <= |data|
    ensures |s| < 0x1_0000 && Lies(data, pos, PutUtf(s)) && pos + |PutUtf(s)| == SkipUtf(data, pos).value
  {
    hide U16, Put16;
    s := data[pos + 2..SkipUtf(data, pos).value];
    Put16OfU16(Big, data, pos);
    SliceLies(data, pos, pos + 2);
    LiesSplit(data, pos, Put16(Big, |s|), s);
  }

  lemma {:induction false} BlobIs(data: bytes, pos: nat)
    requires Blob(data, pos).Some?
    ensures var b := Blob(data, pos).value;
            |b.value| < TWO_32 && Lies(data, pos, PutBlob(b.value)) && pos + |PutBlob(b.value)| == b.next <= |data|
  {
    hide U32, Put32;
    var b := Blob(data, pos).value;
    U32Is(data, pos);
    LiesSplit(data, pos, Put32(Big, |b.value|), b.value);
  }

  lemma {:induction false} CertIs(data: bytes, pos: nat) returns (c: TypedCert)
    requires TypedBlob(data, pos).Some?
    ensures var r := TypedBlob(data, pos).value;
            CertFits(c) && c.cert == r.value && Lies(data, pos, PutCert(c)) && pos + |PutCert(c)| == r.next <= |data|
  {
    hide Blob, PutBlob, PutUtf, Lies, SkipUtf;
    var at := SkipUtf(data, pos).value;
    BlobIs(data, at);
    var kind := UtfIs(data, pos);
    c := TypedCert(kind, Blob(data, at).value.value);
    LiesSplit(data, pos, PutUtf(kind), PutBlob(c.cert));
  }

  lemma {:induction false} ChainIs(data: bytes, pos: nat, count: nat) returns (cs: seq<TypedCert>)
    requires pos <= |data| && Chain(data, pos, count).Some?
    ensures var r := Chain(data, pos, count).value;
            && |cs| == count && (forall i | 0 <= i < |cs| :: CertFits(cs[i])) && Certs(cs) == r.value
            && Lies(data, pos, PutChain(cs)) && pos + |PutChain(cs)| == r.next <= |data|
    decreases count
  {
    hide TypedBlob, PutCert, CertFits;
    if count == 0 {
      cs := [];
      SliceLies(data, pos, pos);
    } else {
      var next := TypedBlob(data, pos).value.next;
      var c := CertIs(data, pos);
      var rest := ChainIs(data, next, count - 1);
      hide Lies;
      cs := [c] + rest;
      assert cs[1..] == rest;
      LiesSplit(data, pos, PutCert(c), PutChain(rest));
    }
  }

  lemma {:induction false} KeyIs(data: bytes, pos: nat) returns (key: bytes, chain: seq<TypedCert>)
    requires KeyEntry(data, pos).Some?
    ensures |key| < TWO_32 && ChainFits(chain)
    ensures var r := KeyEntry(data, pos).value;
            && r.value == Found(Certs(chain), 1)
            && var s := PutBlob(key) + (Put32(Big, |chain|) + PutChain(chain));
            Lies(data, pos, s) && pos + |s| == r.next <= |data|
  {
    hide U32, Put32, Chain, Certs, PutChain, CertFits;
    var n := ReadU32(data, pos).value;
    var at := n.next + n.value;
    var count := ReadU32(data, at).value;
    key := data[n.next..at];
    assert Blob(data, pos) == Some(Read(key, at));
    BlobIs(data, pos);
    U32Is(data, at);
    chain := ChainIs(data, count.next, count.value);
    hide Lies, PutBlob;
    LiesSplit(data, at, Put32(Big, |chain|), PutChain(chain));
    LiesSplit(data, pos, PutBlob(key), Put32(Big, |chain|) + PutChain(chain));
  }

  // The parts of an entry in place.
  lemma {:induction false} ItemJoins(data: bytes, pos: nat, i: Item)
    requires Fits(i)
    requires Lies(data, pos, Put32(Big, if i.PrivateKey? then 1 else 2)) && Lies(data, pos + 4, PutUtf(i.alias))
    requires var at := pos + 4 + |PutUtf(i.alias)|;
             Lies(data, at, i.time) && Lies(data, at + TIMESTAMP, PutContent(i))
    ensures Lies(data, pos, PutItem(i))
    ensures pos + |PutItem(i)| == pos + 4 + |PutUtf(i.alias)| + TIMESTAMP + |PutContent(i)|
  {
    hide Put32, PutUtf, PutContent, Lies, CertFits, ChainFits;
    var at := pos + 4 + |PutUtf(i.alias)|;
    LiesSplit(data, at, i.time, PutContent(i));
    LiesSplit(data, pos + 4, PutUtf(i.alias), i.time + PutContent(i));
    LiesSplit(data, pos, Put32(Big, if i.PrivateKey? then 1 else 2), PutUtf(i.alias) + (i.time + PutContent(i)));
  }

  lemma {:induction false} ItemIs(data: bytes, pos: nat) returns (i: Item)
    requires Entry(data, pos).Some?
    ensures Fits(i) && Content(i) == Entry(data, pos).value.value
    ensures Lies(data, pos, PutItem(i)) && pos + |PutItem(i)| == Entry(data, pos).value.next <= |data|
  {
    hide U32, Put32, SkipUtf, TypedBlob, KeyEntry, PutItem, Lies, PutUtf, CertFits, ChainFits, Certs, PutCert, PutChain,
         PutBlob;
    var tag := ReadU32(data, pos).value;
    U32Is(data, pos);
    var at := SkipUtf(data, tag.next).value;
    var alias;
    if tag.value == 1 {
      var key, chain := KeyIs(data, at + TIMESTAMP);
      alias := UtfIs(data, tag.next);
      SliceLies(data, at, at + TIMESTAMP);
      i := PrivateKey(alias, data[at..at + TIMESTAMP], key, chain);
    } else {
      var cert := CertIs(data, at + TIMESTAMP);
      alias := UtfIs(data, tag.next);
      SliceLies(data, at, at + TIMESTAMP);
      i := Trusted(alias, data[at..at + TIMESTAMP], cert);
    }
    ItemJoins(data, pos, i);
  }

  lemma {:induction false} ItemsAre(data: bytes, pos: nat, count: nat) returns (items: seq<Item>, next: nat)
    requires pos <= |data| && Entries(data, pos, count).Some? && count <= 100_000
    ensures |items| == count && AllFit(items) && Contents(items) == Entries(data, pos, count).value
    ensures Lies(data, pos, PutItems(items)) && pos + |PutItems(items)| == next <= |data|
    decreases count
  {
    hide Entry, PutItem, Fits, Content, Both;
    if count == 0 {
      items, next := [], pos;
      SliceLies(data, pos, pos);
    } else {
      var i := ItemIs(data, pos);
      var rest;
      rest, next := ItemsAre(data, Entry(data, pos).value.next, count - 1);
      hide Lies;
      items := [i] + rest;
      assert items[1..] == rest;
      LiesSplit(data, pos, PutItem(i), PutItems(rest));
    }
  }

  // The bytes are laid out as a keystore that holds this.
  ghost predicate IsKeystore(data: bytes, found: Found) {
    exists version: nat, items, digest ::
      && (version == 1 || version == 2) && AllFit(items) && data == Keystore(version, items, digest)
      && found == Contents(items)
  }

  lemma {:induction false} HeaderJoins(data: bytes, version: nat, items: seq<Item>, next: nat)
    requires AllFit(items) && (version == 1 || version == 2) && next <= |data|
    requires Lies(data, 0, Put32(Big, 0xFEED_FEED)) && Lies(data, 4, Put32(Big, version))
    requires Lies(data, 8, Put32(Big, |items|))
    requires Lies(data, 12, PutItems(items)) && 12 + |PutItems(items)| == next
    ensures data == Keystore(version, items, data[next..])
  {
    hide Put32, PutItems, AllFit;
    var digest := data[next..];
    LiesToEnd(data, next);
    LiesSplit(data, 12, PutItems(items), digest);
    LiesSplit(data, 8, Put32(Big, |items|), PutItems(items) + digest);
    LiesSplit(data, 4, Put32(Big, version), Put32(Big, |items|) + (PutItems(items) + digest));
    LiesSplit(data, 0, Put32(Big, 0xFEED_FEED),
              Put32(Big, version) + (Put32(Big, |items|) + (PutItems(items) + digest)));
    AllLies(data, Keystore(version, items, digest));
  }

  lemma {:induction false} LiesToEnd(data: bytes, i: nat)
    requires i <= |data|
    ensures Lies(data, i, data[i..])
  {
    assert data[i..] == data[i..|data|];
  }

  lemma {:induction false} AllLies(data: bytes, s: bytes)
    requires Lies(data, 0, s) && |s| == |data|
    ensures data == s
  {
    assert data[0..|data|] == data;
  }

  lemma {:induction false} ParsedIsKeystore(data: bytes)
    requires Parse(data).Some?
    ensures IsKeystore(data, Parse(data).value)
  {
    hide U32, Put32, Entries, Keystore, AllFit, Contents, PutItems, Lies;
    U32Is(data, 0);
    U32Is(data, 4);
    U32Is(data, 8);
    var version := ReadU32(data, 4).value.value;
    var items, next := ItemsAre(data, 12, ReadU32(data, 8).value.value);
    HeaderJoins(data, version, items, next);
  }

  /** Exactness: the reader finds just this if and only if the bytes are laid out as a keystore that holds it. */
  lemma {:induction false} ReadsExactlyKeystores(data: bytes, found: Found)
    ensures Parse(data) == Some(found) <==> IsKeystore(data, found)
  {
    hide Parse, Keystore, AllFit, Contents;
    if Parse(data).Some? {
      ParsedIsKeystore(data);
    }
    if IsKeystore(data, found) {
      var version: nat, items, digest :|
        && (version == 1 || version == 2) && AllFit(items) && data == Keystore(version, items, digest)
        && found == Contents(items);
      ParseRecovers(version, items, digest);
    }
  }
}
