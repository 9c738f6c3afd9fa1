/** EFI signature lists as they are written, and that the walk finds exactly those a variable holds. */
module SignatureLayout {
  import opened Bytes
  import opened Options
  import opened SignatureLists

  // One entry: the GUID of its owner and its data.
  datatype OwnedEntry = OwnedEntry(owner: bytes, payload: bytes)

  // A list: the GUID of its type, a header, entries of one size, and what is too short for another.
  datatype EfiList = EfiList(kind: bytes, header: bytes, size: nat, entries: seq<OwnedEntry>, spare: bytes)

  function EntryBytes(es: seq<OwnedEntry>): bytes {
    if es == [] then [] else es[0].owner + es[0].payload + EntryBytes(es[1..])
  }

  function Payloads(es: seq<OwnedEntry>): seq<bytes> {
    if es == [] then [] else [es[0].payload] + Payloads(es[1..])
  }

  ghost predicate AreSized(es: seq<OwnedEntry>, size: nat) {
    forall i | 0 <= i < |es| :: |es[i].owner| == 16 && 16 + |es[i].payload| == size
  }

  function Body(l: EfiList): bytes {
    l.header + (EntryBytes(l.entries) + l.spare)
  }

  ghost predicate Fits(l: EfiList) {
    && |l.kind| == 16 && 16 <= l.size < TWO_32 && AreSized(l.entries, l.size) && |l.spare| < l.size
    && |l.header| < TWO_32 && 28 + |Body(l)| < TWO_32
  }

  // {type, size of the list, size of its header, size of an entry} and the body.
  ghost function Encode(l: EfiList): (s: bytes)
    requires Fits(l)
    ensures |s| == |l.kind| + 12 + |Body(l)|
  {
    l.kind + Put32(Little, 28 + |Body(l)|) + Put32(Little, |l.header|) + Put32(Little, l.size) + Body(l)
  }

  ghost predicate AllFit(ls: seq<EfiList>) {
    forall i | 0 <= i < |ls| :: Fits(ls[i])
  }

  ghost function EncodeAll(ls: seq<EfiList>): bytes
    requires AllFit(ls)
  {
    if ls == [] then [] else Encode(ls[0]) + EncodeAll(ls[1..])
  }

  // What a list tells: its type, its entries' data, and whether anything is left over.
  datatype Told = Told(kind: bytes, entries: seq<bytes>, partial: bool)

  function Meanings(ls: seq<EfiList>): seq<Told> {
    if ls == [] then []
    else [Told(ls[0].kind, Payloads(ls[0].entries), ls[0].spare != [])] + Meanings(ls[1..])
  }

  function Tell(ls: seq<SigList>): seq<Told> {
    if ls == [] then [] else [Told(ls[0].kind, ls[0].entries, ls[0].partial)] + Tell(ls[1..])
  }

  // No list starts here.
  ghost predicate NoList(s: bytes) {
    forall l | Fits(l) :: !(Encode(l) <= s)
  }

  // ---- Lists read back ----

  lemma {:induction false} EntryBytesCount(es: seq<OwnedEntry>, size: nat)
    requires AreSized(es, size)
    ensures |EntryBytes(es)| == |es| * size && |Payloads(es)| == |es|
    decreases |es|
  {
    if es != [] {
      EntryBytesCount(es[1..], size);
      assert |es| * size == size + (|es| - 1) * size;
    }
  }

  lemma {:induction false} EntriesRead(data: bytes, at: nat, end: nat, size: nat, es: seq<OwnedEntry>, spare: bytes)
    requires 16 <= size && AreSized(es, size) && |spare| < size
    requires Lies(data, at, EntryBytes(es) + spare) && end == at + |EntryBytes(es)| + |spare|
    ensures EntriesFrom(data, at, end, size) == Payloads(es)
    decreases |es|
  {
    hide Lies;
    LiesIn(data, at, EntryBytes(es) + spare);
    if es != [] {
      var e, rest := es[0], EntryBytes(es[1..]) + spare;
      assert EntryBytes(es) + spare == (e.owner + e.payload) + rest;
      LiesSplit(data, at, e.owner + e.payload, rest);
      LiesSplit(data, at, e.owner, e.payload);
      LiesIn(data, at + 16, e.payload);
      EntriesRead(data, at + size, end, size, es[1..], spare);
    }
  }

  lemma {:induction false} LiesIn(data: bytes, at: nat, s: bytes)
    ensures Lies(data, at, s) <==> at + |s| <= |data| && data[at..at + |s|] == s
  {
  }

  lemma {:induction false} HeadReads(data: bytes, pos: nat, kind: bytes, a: nat, b: nat, c: nat, body: bytes)
    requires |kind| == 16 && a < TWO_32 && b < TWO_32 && c < TWO_32
    requires Lies(data, pos, kind + Put32(Little, a) + Put32(Little, b) + Put32(Little, c) + body)
    ensures pos + 28 + |body| <= |data| && data[pos..pos + 16] == kind && Lies(data, pos + 28, body)
    ensures U32(Little, data, pos + 16) == a && U32(Little, data, pos + 20) == b && U32(Little, data, pos + 24) == c
  {
    hide U32, Put32, Lies;
    var s := kind + Put32(Little, a) + Put32(Little, b) + Put32(Little, c);
    LiesSplit(data, pos, s, body);
    LiesSplit(data, pos, kind + Put32(Little, a) + Put32(Little, b), Put32(Little, c));
    LiesSplit(data, pos, kind + Put32(Little, a), Put32(Little, b));
    LiesSplit(data, pos, kind, Put32(Little, a));
    LiesIn(data, pos + 28, body);
    LiesIn(data, pos, kind);
    LiesIn(data, pos + 16, Put32(Little, a));
    LiesIn(data, pos + 20, Put32(Little, b));
    LiesIn(data, pos + 24, Put32(Little, c));
    U32Slice(Little, data, pos + 16);
    U32Slice(Little, data, pos + 20);
    U32Slice(Little, data, pos + 24);
  }

  lemma {:induction false} ListReads(data: bytes, pos: nat, l: EfiList)
    requires Fits(l) && Lies(data, pos, Encode(l))
    ensures ListAt(data, pos) == Some(SigList(l.kind, Payloads(l.entries), l.spare != [], pos + |Encode(l)|))
  {
    hide U32, Put32, Lies, EntriesFrom, EntryBytes, Payloads, AreSized;
    HeadReads(data, pos, l.kind, 28 + |Body(l)|, |l.header|, l.size, Body(l));
    LiesSplit(data, pos + 28, l.header, EntryBytes(l.entries) + l.spare);
    EntryBytesCount(l.entries, l.size);
    EntriesRead(data, pos + 28 + |l.header|, pos + |Encode(l)|, l.size, l.entries, l.spare);
    EntriesAreWhole(data, pos);
  }

  lemma {:induction false} ListsRead(data: bytes, pos: nat, ls: seq<EfiList>, tail: bytes)
    requires AllFit(ls) && pos <= |data| && data[pos..] == EncodeAll(ls) + tail && NoList(tail)
    ensures var w := Lists(data, pos); Tell(w.lists) == Meanings(ls) && (w.stopped <==> tail != [])
    decreases |ls|
  {
    hide Lists, ListAt, Encode, NoList, Fits, Tell;
    if ls == [] {
      assert data[pos..] == tail;
      TailReads(data, pos);
    } else {
      var l, rest := ls[0], EncodeAll(ls[1..]) + tail;
      assert Fits(l) && AllFit(ls[1..]);
      assert EncodeAll(ls) + tail == Encode(l) + rest;
      var end := Front(data, pos, Encode(l), rest);
      ListReads(data, pos, l);
      NotEmpty(l);
      ListsRead(data, end, ls[1..], tail);
      TellUnfolds(data, pos);
    }
  }

  lemma {:induction false} Front(data: bytes, pos: nat, s: bytes, rest: bytes) returns (end: nat)
    requires pos <= |data| && data[pos..] == s + rest
    ensures end == pos + |s| <= |data| && Lies(data, pos, s) && data[end..] == rest
  {
    end := pos + |s|;
    assert data[pos..][..|s|] == s && data[pos..][|s|..] == rest;
    assert data[pos..end] == data[pos..][..|s|];
  }

  lemma {:induction false} TellUnfolds(data: bytes, pos: nat)
    requires pos < |data| && ListAt(data, pos).Some?
    ensures var l, w := ListAt(data, pos).value, Lists(data, pos);
            var rest := Lists(data, l.end);
            && Tell(w.lists) == [Told(l.kind, l.entries, l.partial)] + Tell(rest.lists) && w.stopped == rest.stopped
  {
    hide ListAt;
    var l := ListAt(data, pos).value;
    assert ([l] + Lists(data, l.end).lists)[1..] == Lists(data, l.end).lists;
  }

  lemma {:induction false} TailReads(data: bytes, pos: nat)
    requires pos <= |data| && NoList(data[pos..])
    ensures var w := Lists(data, pos); Tell(w.lists) == [] && (w.stopped <==> data[pos..] != [])
  {
    hide ListAt, Encode, NoList, Fits;
    if ListAt(data, pos).Some? {
      var l := ListIs(data, pos);
      StartsTail(data, pos, l);
      SomeList(data[pos..], l);
    }
  }

  lemma {:induction false} NotEmpty(l: EfiList)
    requires Fits(l)
    ensures |Encode(l)| >= 28
  {
  }

  lemma {:induction false} SomeList(s: bytes, l: EfiList)
    requires Fits(l) && Encode(l) <= s
    ensures !NoList(s)
  {
  }

  lemma {:induction false} StartsTail(data: bytes, pos: nat, l: EfiList)
    requires Fits(l) && Lies(data, pos, Encode(l))
    ensures pos <= |data| && Encode(l) <= data[pos..]
  {
    hide Encode;
    assert data[pos..][..|Encode(l)|] == data[pos..pos + |Encode(l)|];
  }

  // ---- Whatever reads is such a list ----

  lemma {:induction false} ThreeParts(s: bytes, i: nat, j: nat, k: nat, l: nat)
    requires i <= j <= k <= l <= |s|
    ensures s[i..l] == s[i..j] + s[j..k] + s[k..l]
  {
  }

  lemma {:induction false} EntriesAre(data: bytes, at: nat, end: nat, size: nat)
    returns (es: seq<OwnedEntry>, spare: bytes)
    requires at <= end <= |data| && 16 <= size
    ensures AreSized(es, size) && |spare| < size && data[at..end] == EntryBytes(es) + spare
    decreases end - at
  {
    if at + size > end {
      es, spare := [], data[at..end];
    } else {
      var e := OwnedEntry(data[at..at + 16], data[at + 16..at + size]);
      var rest;
      rest, spare := EntriesAre(data, at + size, end, size);
      es := [e] + rest;
      assert es[1..] == rest;
      ThreeParts(data, at, at + 16, at + size, end);
    }
  }

  lemma {:induction false} ListIs(data: bytes, pos: nat) returns (l: EfiList)
    requires ListAt(data, pos).Some?
    ensures Fits(l) && Lies(data, pos, Encode(l)) && ListAt(data, pos).value.end == pos + |Encode(l)|
  {
    hide U32, Put32, EntriesFrom, AreSized;
    var listSize, headerSize, size :=
      U32(Little, data, pos + 16), U32(Little, data, pos + 20), U32(Little, data, pos + 24);
    var first, end := pos + 28 + headerSize, pos + listSize;
    var es, spare := EntriesAre(data, first, end, size);
    l := EfiList(data[pos..pos + 16], data[pos + 28..first], size, es, spare);
    assert Body(l) == data[pos + 28..end];
    HeadIs(data, pos, end);
  }

  lemma {:induction false} HeadIs(data: bytes, pos: nat, end: nat)
    requires pos + 28 <= end <= |data|
    ensures data[pos..end] == data[pos..pos + 16] + Put32(Little, U32(Little, data, pos + 16))
                              + Put32(Little, U32(Little, data, pos + 20))
                              + Put32(Little, U32(Little, data, pos + 24)) + data[pos + 28..end]
  {
    hide U32, Put32;
    Put32OfU32(Little, data, pos + 16);
    Put32OfU32(Little, data, pos + 20);
    Put32OfU32(Little, data, pos + 24);
    assert data[pos..end] == data[pos..pos + 16] + data[pos + 16..pos + 20] + data[pos + 20..pos + 24]
                             + data[pos + 24..pos + 28] + data[pos + 28..end];
  }

  lemma {:induction false} ListsAre(data: bytes, pos: nat) returns (ls: seq<EfiList>, tail: bytes)
    requires pos <= |data|
    ensures AllFit(ls) && data[pos..] == EncodeAll(ls) + tail && NoList(tail)
    decreases |data| - pos
  {
    hide ListAt, Encode, Fits;
    if ListAt(data, pos).None? {
      ls, tail := [], data[pos..];
      assert [] + tail == tail;
      NothingStarts(data, pos);
    } else {
      var l := ListIs(data, pos);
      var end := ListAt(data, pos).value.end;
      LiesIn(data, pos, Encode(l));
      var rest;
      rest, tail := ListsAre(data, end);
      ls := [l] + rest;
      assert ls[1..] == rest;
      assert data[pos..] == Encode(l) + data[end..];
      assert EncodeAll(ls) + tail == Encode(l) + (EncodeAll(rest) + tail);
    }
  }

  lemma {:induction false} NothingStarts(data: bytes, pos: nat)
    requires pos <= |data| && ListAt(data, pos) == None
    ensures NoList(data[pos..])
  {
    hide ListAt, Encode, Fits;
    forall l | Fits(l) ensures !(Encode(l) <= data[pos..]) {
      if Encode(l) <= data[pos..] {
        assert data[pos..][..|Encode(l)|] == data[pos..pos + |Encode(l)|];
        LiesIn(data, pos, Encode(l));
        ListReads(data, pos, l);
      }
    }
  }

  // The variable holds lists that tell this, up to its end or up to what is no list.
  ghost predicate IsVariable(data: bytes, told: seq<Told>, stopped: bool) {
    exists ls, tail ::
      AllFit(ls) && NoList(tail) && data == EncodeAll(ls) + tail && Meanings(ls) == told && (stopped <==> tail != [])
  }

  /** Exactness: the walk finds these lists, and stops early or not, if and only if the bytes are laid out so. */
  lemma {:induction false} ReadsExactlyLists(data: bytes, told: seq<Told>, stopped: bool)
    ensures Tell(Lists(data, 0).lists) == told && Lists(data, 0).stopped == stopped <==> IsVariable(data, told, stopped)
  {
    hide Lists, NoList, Encode, Fits, AllFit, EncodeAll, Meanings, Tell;
    assert data[0..] == data;
    var ls, tail := ListsAre(data, 0);
    ListsRead(data, 0, ls, tail);
    if IsVariable(data, told, stopped) {
      var ls1, tail1 :|
        AllFit(ls1) && NoList(tail1) && data == EncodeAll(ls1) + tail1 && Meanings(ls1) == told
        && (stopped <==> tail1 != []);
      ListsRead(data, 0, ls1, tail1);
    }
  }

  // ---- Types ----

  // The GUID d1-d2-d3-d4, of which the first three fields are stored in little-endian order.
  ghost predicate IsGuid(raw: bytes, d1: nat, d2: nat, d3: nat, d4: bytes) {
    && |raw| == 16 && U32(Little, raw, 0) == d1 && U16(Little, raw, 4) == d2 && U16(Little, raw, 6) == d3
    && raw[8..] == d4
  }

  /** The types by their GUIDs, a5c059a1-94e4-4aa7-87b5-ab155c2bf072 for X.509, c1c41626-504c-4092-aca9-41f936934328
      for SHA-256 and 3c5766e8-269c-4e34-aa14-ed776e85b3b6 for RSA-2048. */
  lemma {:induction false} TypesAre()
    ensures IsGuid(X509, 0xA5C0_59A1, 0x94E4, 0x4AA7, [0x87, 0xB5, 0xAB, 0x15, 0x5C, 0x2B, 0xF0, 0x72])
    ensures IsGuid(SHA256, 0xC1C4_1626, 0x504C, 0x4092, [0xAC, 0xA9, 0x41, 0xF9, 0x36, 0x93, 0x43, 0x28])
    ensures IsGuid(RSA2048, 0x3C57_66E8, 0x269C, 0x4E34, [0xAA, 0x14, 0xED, 0x77, 0x6E, 0x85, 0xB3, 0xB6])
  {
  }

  /** Two types are the same if their GUIDs are. */
  lemma {:induction false} GuidIsType(a: bytes, b: bytes, d1: nat, d2: nat, d3: nat, d4: bytes)
    requires IsGuid(a, d1, d2, d3, d4) && IsGuid(b, d1, d2, d3, d4)
    ensures a == b
  {
    hide U32, U16;
    U32Slice(Little, a, 0);
    U32Slice(Little, b, 0);
    U32Injective(Little, a[0..4], b[0..4]);
    Put16OfU16(Little, a, 4);
    Put16OfU16(Little, b, 4);
    Put16OfU16(Little, a, 6);
    Put16OfU16(Little, b, 6);
    assert a == a[0..4] + a[4..6] + a[6..8] + a[8..] && b == b[0..4] + b[4..6] + b[6..8] + b[8..];
  }
}
