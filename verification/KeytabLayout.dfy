/** Keytab files as they are written, and that the reader recovers them and ignores the keys. */
module KeytabLayout {
  import opened Bytes
  import opened Options
  import opened Keytab

  // A stored key, or the hole a deleted one leaves.  `count` is the component count as it is stored, which in
  // version 1 counts the realm too; `tail` may start with a 32-bit key version.
  datatype Slot =
    | Stored(count: nat, realm: bytes, components: seq<bytes>, nameType: bytes, timestamp: bytes, kvno8: byte,
             enctype: int, key: bytes, tail: bytes)
    | Hole(junk: bytes)

  // Version 2 files are big-endian; version 1 files are in the byte order of the machine.
  function LayoutOf(version: nat, native: Order): Format {
    if version == 1 then Format(1, native) else Format(2, Big)
  }

  ghost predicate ShortFields(fs: seq<bytes>) {
    forall i | 0 <= i < |fs| :: |fs[i]| < 0x1_0000
  }

  ghost predicate Encodable(f: Format, s: Slot) {
    match s
    case Hole(junk) => 0 < |junk| <= 0x8000_0000
    case Stored(count, realm, components, nameType, timestamp, kvno8, enctype, key, tail) =>
      && |realm| < 0x1_0000 && count < 0x1_0000 && |components| == Components(f, count) && ShortFields(components)
      && |nameType| == (if f.version == 2 then 4 else 0) && |timestamp| == 4
      && -0x8000 <= enctype < 0x8000 && |key| < 0x1_0000
      && |Body(f, s)| < 0x8000_0000
  }

  function PutField(o: Order, b: bytes): bytes
    requires |b| < 0x1_0000
  {
    Put16(o, |b|) + b
  }

  function PutFields(o: Order, fs: seq<bytes>): bytes
    requires ShortFields(fs)
  {
    if fs == [] then [] else PutField(o, fs[0]) + PutFields(o, fs[1..])
  }

  function KeyHeader(f: Format, s: Slot): bytes
    requires s.Stored? && -0x8000 <= s.enctype < 0x8000 && |s.key| < 0x1_0000
  {
    [s.kvno8] + Put16(f.order, if s.enctype < 0 then s.enctype + 0x1_0000 else s.enctype) + Put16(f.order, |s.key|)
  }

  function KeyBytes(f: Format, s: Slot): bytes
    requires s.Stored? && -0x8000 <= s.enctype < 0x8000 && |s.key| < 0x1_0000
  {
    (s.nameType + s.timestamp) + (KeyHeader(f, s) + (s.key + s.tail))
  }

  function Components(f: Format, count: nat): nat {
    if f.version == 1 then (if count == 0 then 0 else count - 1) else count
  }

  function Body(f: Format, s: Slot): bytes
    requires s.Stored? && |s.realm| < 0x1_0000 && s.count < 0x1_0000 && ShortFields(s.components)
    requires -0x8000 <= s.enctype < 0x8000 && |s.key| < 0x1_0000
  {
    Put16(f.order, s.count) + (PutField(f.order, s.realm) + (PutFields(f.order, s.components) + KeyBytes(f, s)))
  }

  function EncodeSlot(f: Format, s: Slot): bytes
    requires Encodable(f, s)
  {
    match s
    case Hole(junk) => Put32(f.order, TWO_32 - |junk|) + junk
    case Stored(_, _, _, _, _, _, _, _, _) => Put32(f.order, |Body(f, s)|) + Body(f, s)
  }

  ghost predicate AllEncodable(f: Format, ss: seq<Slot>) {
    forall i | 0 <= i < |ss| :: Encodable(f, ss[i])
  }

  function EncodeSlots(f: Format, ss: seq<Slot>): bytes
    requires AllEncodable(f, ss)
  {
    if ss == [] then [] else EncodeSlot(f, ss[0]) + EncodeSlots(f, ss[1..])
  }

  // What may end a file: too little for a record, a zero length and anything after it, or a hole that is
  // longer than what is left.
  predicate IsEnd(f: Format, s: bytes) {
    |s| < 4 || U32(f.order, s, 0) == 0
    || (U32(f.order, s, 0) >= 0x8000_0000 && |s| < 4 + (TWO_32 - U32(f.order, s, 0)))
  }

  function Kvno(f: Format, s: Slot): nat
    requires s.Stored?
  {
    var kvno32 := if |s.tail| >= 4 then U32(f.order, s.tail, 0) else 0;
    if kvno32 != 0 then kvno32 else s.kvno8
  }

  function Meanings(f: Format, ss: seq<Slot>): seq<Entry> {
    if ss == [] then []
    else
      (match ss[0]
       case Hole(_) => []
       case Stored(_, realm, components, _, _, _, enctype, _, _) => [Entry(components, realm, Kvno(f, ss[0]), enctype)])
      + Meanings(f, ss[1..])
  }

  // ---- Reading back ----

  lemma {:induction false} U16Lies(data: bytes, o: Order, at: nat, n: nat)
    requires n < 0x1_0000 && Lies(data, at, Put16(o, n))
    ensures at + 2 <= |data| && U16(o, data, at) == n
  {
    U16Slice(o, data, at);
  }

  lemma {:induction false} U32Lies(data: bytes, o: Order, at: nat, n: nat)
    requires n < TWO_32 && Lies(data, at, Put32(o, n))
    ensures at + 4 <= |data| && U32(o, data, at) == n
  {
    hide U32, Put32;
    U32Slice(o, data, at);
  }

  lemma {:induction false} FieldReads(data: bytes, o: Order, at: nat, limit: nat, b: bytes)
    requires |b| < 0x1_0000 && Lies(data, at, PutField(o, b)) && at + |PutField(o, b)| <= limit <= |data|
    ensures Field(data, o, at, limit) == Some((b, at + |PutField(o, b)|))
  {
    hide U16, Put16;
    LiesSplit(data, at, Put16(o, |b|), b);
    U16Lies(data, o, at, |b|);
  }

  lemma {:induction false} FieldsRead(data: bytes, o: Order, at: nat, limit: nat, fs: seq<bytes>)
    requires ShortFields(fs) && Lies(data, at, PutFields(o, fs)) && at + |PutFields(o, fs)| <= limit <= |data|
    ensures Fields(data, o, at, limit, |fs|) == Some((fs, at + |PutFields(o, fs)|))
    decreases |fs|
  {
    hide PutField, Field, Lies;
    if fs != [] {
      LiesSplit(data, at, PutField(o, fs[0]), PutFields(o, fs[1..]));
      FieldReads(data, o, at, limit, fs[0]);
      FieldsRead(data, o, at + |PutField(o, fs[0])|, limit, fs[1..]);
      assert fs == [fs[0]] + fs[1..];
    }
  }

  lemma {:induction false} HeaderReads(data: bytes, f: Format, at: nat, s: Slot)
    requires s.Stored? && -0x8000 <= s.enctype < 0x8000 && |s.key| < 0x1_0000
    requires Lies(data, at, KeyHeader(f, s))
    ensures at + 5 <= |data| && data[at] == s.kvno8
    ensures Signed16(U16(f.order, data, at + 1)) == s.enctype && U16(f.order, data, at + 3) == |s.key|
  {
    var o := f.order;
    var e := if s.enctype < 0 then s.enctype + 0x1_0000 else s.enctype;
    hide U16, Put16;
    assert KeyHeader(f, s) == [s.kvno8] + (Put16(o, e) + Put16(o, |s.key|));
    LiesSplit(data, at, [s.kvno8], Put16(o, e) + Put16(o, |s.key|));
    LiesSplit(data, at + 1, Put16(o, e), Put16(o, |s.key|));
    U16Lies(data, o, at + 1, e);
    U16Lies(data, o, at + 3, |s.key|);
    assert data[at..at + 1] == [s.kvno8];
  }

  lemma {:induction false} KeyPartReads(data: bytes, f: Format, at: nat, end: nat, s: Slot)
    requires Encodable(f, s) && s.Stored?
    requires Lies(data, at, KeyBytes(f, s)) && at + |KeyBytes(f, s)| == end <= |data|
    ensures KeyPart(data, f, at, end) == Some((Kvno(f, s), s.enctype))
  {
    hide U16, U32, Put16, Lies, Body;
    var skip := s.nameType + s.timestamp;
    var rest := KeyHeader(f, s) + (s.key + s.tail);
    var k := at + |skip|;
    LiesSplit(data, at, skip, rest);
    LiesSplit(data, k, KeyHeader(f, s), s.key + s.tail);
    LiesSplit(data, k + 5, s.key, s.tail);
    HeaderReads(data, f, k, s);
    var after := k + 5 + |s.key|;
    if |s.tail| >= 4 {
      TailReads(data, f, after, s.tail);
    }
  }

  lemma {:induction false} TailReads(data: bytes, f: Format, at: nat, tail: bytes)
    requires |tail| >= 4 && Lies(data, at, tail)
    ensures U32(f.order, data, at) == U32(f.order, tail, 0)
  {
    hide U32;
    U32Slice(f.order, data, at);
    U32Slice(f.order, tail, 0);
    SliceOfSlice(data, at, at + |tail|, 0, 4);
  }

  lemma {:induction false} EntryReads(data: bytes, f: Format, at: nat, s: Slot)
    requires Encodable(f, s) && s.Stored? && Lies(data, at, Body(f, s))
    ensures at + |Body(f, s)| <= |data|
    ensures ReadEntry(data, f, at, at + |Body(f, s)|) == Some(Entry(s.components, s.realm, Kvno(f, s), s.enctype))
  {
    hide U16, U32, Put16, KeyBytes, PutField, PutFields, Field, Fields, KeyPart, Kvno;
    var o := f.order;
    var b := Body(f, s);
    var end := at + |b|;
    var s2 := PutFields(o, s.components) + KeyBytes(f, s);
    var s1 := PutField(o, s.realm) + s2;
    assert end <= |data|;
    LiesSplit(data, at, Put16(o, s.count), s1);
    LiesSplit(data, at + 2, PutField(o, s.realm), s2);
    var p := at + 2 + |PutField(o, s.realm)|;
    LiesSplit(data, p, PutFields(o, s.components), KeyBytes(f, s));
    U16Lies(data, o, at, s.count);
    FieldReads(data, o, at + 2, end, s.realm);
    FieldsRead(data, o, p, end, s.components);
    KeyPartReads(data, f, p + |PutFields(o, s.components)|, end, s);
  }

  lemma {:induction false} SlotReads(data: bytes, f: Format, pos: nat, s: Slot)
    requires Encodable(f, s) && Lies(data, pos, EncodeSlot(f, s)) && (f.version == 1 || f.version == 2)
    ensures var next := pos + |EncodeSlot(f, s)|;
            && pos + 4 <= next <= |data|
            && Records(data, f, pos) ==
               match Records(data, f, next)
               case None => None
               case Some(rest) => Some(Meanings(f, [s]) + rest)
  {
    hide U32, Put32, ReadEntry, Body, Kvno;
    assert [s][1..] == [];
    match s
    case Hole(junk) =>
      LiesSplit(data, pos, Put32(f.order, TWO_32 - |junk|), junk);
      U32Lies(data, f.order, pos, TWO_32 - |junk|);
      assert Signed32(TWO_32 - |junk|) == -|junk|;
      assert Meanings(f, [s]) == [];
      var rest := Records(data, f, pos + 4 + |junk|);
      assert Records(data, f, pos) == rest;
      assert rest.Some? ==> [] + rest.value == rest.value;
    case Stored(_, _, _, _, _, _, _, _, _) =>
      LiesSplit(data, pos, Put32(f.order, |Body(f, s)|), Body(f, s));
      U32Lies(data, f.order, pos, |Body(f, s)|);
      BodyNonempty(f, s);
      EntryReads(data, f, pos + 4, s);
      assert Signed32(|Body(f, s)|) == |Body(f, s)|;
      assert Meanings(f, [s]) == [Entry(s.components, s.realm, Kvno(f, s), s.enctype)];
  }

  lemma {:induction false} BodyNonempty(f: Format, s: Slot)
    requires s.Stored? && Encodable(f, s)
    ensures |Body(f, s)| > 0
  {
  }

  lemma {:induction false} SlotsRead(data: bytes, f: Format, pos: nat, ss: seq<Slot>, end: bytes)
    requires AllEncodable(f, ss) && (f.version == 1 || f.version == 2)
    requires Lies(data, pos, EncodeSlots(f, ss) + end) && pos + |EncodeSlots(f, ss)| + |end| == |data| && IsEnd(f, end)
    ensures Records(data, f, pos) == Some(Meanings(f, ss))
    decreases |ss|
  {
    hide U32, EncodeSlot, Encodable;
    if ss == [] {
      assert EncodeSlots(f, ss) + end == end;
      EndReads(data, f, pos, end);
    } else {
      assert EncodeSlots(f, ss) + end == EncodeSlot(f, ss[0]) + (EncodeSlots(f, ss[1..]) + end);
      LiesSplit(data, pos, EncodeSlot(f, ss[0]), EncodeSlots(f, ss[1..]) + end);
      SlotReads(data, f, pos, ss[0]);
      SlotsRead(data, f, pos + |EncodeSlot(f, ss[0])|, ss[1..], end);
      assert [ss[0]][1..] == [];
      assert Meanings(f, ss) == Meanings(f, [ss[0]]) + Meanings(f, ss[1..]);
    }
  }

  lemma {:induction false} EndReads(data: bytes, f: Format, pos: nat, end: bytes)
    requires Lies(data, pos, end) && pos + |end| == |data| && IsEnd(f, end)
    ensures Records(data, f, pos) == Some([])
  {
    hide U32, ReadEntry;
    if |end| >= 4 {
      U32Slice(f.order, data, pos);
      U32Slice(f.order, end, 0);
      SliceOfSlice(data, pos, pos + |end|, 0, 4);
      var length := Signed32(U32(f.order, end, 0));
      assert U32(f.order, data, pos) == U32(f.order, end, 0);
      if length < 0 {
        assert Records(data, f, pos + 4 - length) == Some([]);
      }
    }
  }

  function File(f: Format, ss: seq<Slot>, end: bytes): bytes
    requires AllEncodable(f, ss) && (f.version == 1 || f.version == 2)
  {
    [5, f.version] + (EncodeSlots(f, ss) + end)
  }

  /** Reading recovers exactly the principals, key versions and encryption types, in order, with holes
      anywhere and in both format versions. */
  lemma {:induction false} ParseRecovers(version: nat, native: Order, ss: seq<Slot>, end: bytes)
    requires (version == 1 || version == 2) && AllEncodable(LayoutOf(version, native), ss)
    requires IsEnd(LayoutOf(version, native), end)
    ensures Parse(File(LayoutOf(version, native), ss, end), native) ==
            Some(KeytabFile(version, Meanings(LayoutOf(version, native), ss)))
  {
    hide Records, EncodeSlots, Meanings;
    var f := LayoutOf(version, native);
    var data := File(f, ss, end);
    assert data[2..2 + |EncodeSlots(f, ss) + end|] == EncodeSlots(f, ss) + end;
    SlotsRead(data, f, 2, ss, end);
  }

  // The same slots but for the bytes of the keys and of the holes.
  ghost predicate SameButKeys(a: seq<Slot>, b: seq<Slot>) {
    |a| == |b| && forall i | 0 <= i < |a| ::
      match (a[i], b[i])
      case (Hole(j1), Hole(j2)) => |j1| == |j2|
      case (Stored(_, _, _, _, _, _, _, _, _), Stored(_, _, _, _, _, _, _, key, _)) =>
        |key| == |a[i].key| && b[i] == a[i].(key := key)
      case _ => false
  }

  lemma {:induction false} MeaningsIgnoreKeys(f: Format, a: seq<Slot>, b: seq<Slot>)
    requires SameButKeys(a, b)
    ensures Meanings(f, a) == Meanings(f, b)
    decreases |a|
  {
    hide U32;
    if a != [] {
      MeaningsIgnoreKeys(f, a[1..], b[1..]);
      match (a[0], b[0])
      case (Stored(_, _, _, _, _, _, _, _, _), Stored(_, _, _, _, _, _, _, key, _)) =>
        assert b[0] == a[0].(key := key);
      case _ =>
    }
  }

  /** Key material is not looked at: changing nothing but key bytes never changes what is read. */
  lemma {:induction false} KeysAreIrrelevant(version: nat, native: Order, a: seq<Slot>, b: seq<Slot>, end: bytes)
    requires (version == 1 || version == 2) && IsEnd(LayoutOf(version, native), end) && SameButKeys(a, b)
    requires AllEncodable(LayoutOf(version, native), a) && AllEncodable(LayoutOf(version, native), b)
    ensures Parse(File(LayoutOf(version, native), a, end), native) ==
            Parse(File(LayoutOf(version, native), b, end), native)
  {
    hide Parse, File;
    ParseRecovers(version, native, a, end);
    ParseRecovers(version, native, b, end);
    MeaningsIgnoreKeys(LayoutOf(version, native), a, b);
  }
}
