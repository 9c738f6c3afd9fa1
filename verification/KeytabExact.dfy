/** What the keytab reader accepts is laid out as a keytab: nothing else parses. */
module KeytabExact {
  import opened Bytes
  import opened Options
  import opened Keytab
  import opened KeytabLayout

  lemma {:induction false} FieldIs(data: bytes, o: Order, at: nat, limit: nat)
    requires limit <= |data| && Field(data, o, at, limit).Some?
    ensures var (b, next) := Field(data, o, at, limit).value;
            |b| < 0x1_0000 && at + |PutField(o, b)| == next && Lies(data, at, PutField(o, b))
  {
    hide U16, Put16;
    var (b, next) := Field(data, o, at, limit).value;
    Put16OfU16(o, data, at);
    LiesSplit(data, at, Put16(o, |b|), b);
  }

  lemma {:induction false} FieldsAre(data: bytes, o: Order, at: nat, limit: nat, count: nat)
    requires at <= limit <= |data| && Fields(data, o, at, limit, count).Some?
    ensures var (fs, next) := Fields(data, o, at, limit, count).value;
            ShortFields(fs) && at + |PutFields(o, fs)| == next <= limit && Lies(data, at, PutFields(o, fs))
    decreases count
  {
    hide Field, PutField;
    if count == 0 {
      EmptyLies(data, at);
    } else {
      var (first, next) := Field(data, o, at, limit).value;
      FieldIs(data, o, at, limit);
      FieldsAre(data, o, next, limit, count - 1);
      var rest := Fields(data, o, next, limit, count - 1).value.0;
      assert ([first] + rest)[1..] == rest;
      ShortCons(first, rest);
      hide ShortFields;
      LiesSplit(data, at, PutField(o, first), PutFields(o, rest));
    }
  }

  lemma {:induction false} ShortCons(first: bytes, rest: seq<bytes>)
    requires |first| < 0x1_0000 && ShortFields(rest)
    ensures ShortFields([first] + rest)
  {
  }

  lemma {:induction false} EmptyLies(data: bytes, at: nat)
    requires at <= |data|
    ensures Lies(data, at, [])
  {
  }

  // The slot the key part and what came before it make up.
  function SlotOf(data: bytes, f: Format, count: nat, realm: bytes, comps: seq<bytes>, at: nat, end: nat): Slot
    requires end <= |data| && KeyPart(data, f, at, end).Some?
  {
    var skip := if f.version == 2 then 8 else 4;
    var k := at + skip;
    var after := k + 5 + U16(f.order, data, k + 3);
    Stored(count, realm, comps, data[at..k - 4], data[k - 4..k], data[k], KeyPart(data, f, at, end).value.1,
           data[k + 5..after], data[after..end])
  }

  lemma {:induction false} HeaderIs(data: bytes, f: Format, at: nat, s: Slot)
    requires at + 5 <= |data| && s.Stored? && s.kvno8 == data[at] && |s.key| == U16(f.order, data, at + 3)
    requires s.enctype == Signed16(U16(f.order, data, at + 1))
    ensures -0x8000 <= s.enctype < 0x8000 && |s.key| < 0x1_0000 && Lies(data, at, KeyHeader(f, s))
  {
    hide U16, Put16;
    Put16OfU16(f.order, data, at + 1);
    Put16OfU16(f.order, data, at + 3);
    assert data[at..at + 5] == [data[at]] + data[at + 1..at + 3] + data[at + 3..at + 5];
  }

  // Where the parts of the slot lie.
  lemma {:induction false} PartsLie(data: bytes, f: Format, count: nat, realm: bytes, comps: seq<bytes>, at: nat,
                                    end: nat)
    requires end <= |data| && KeyPart(data, f, at, end).Some? && (f.version == 1 || f.version == 2)
    ensures var s := SlotOf(data, f, count, realm, comps, at, end);
            && -0x8000 <= s.enctype < 0x8000 && |s.key| < 0x1_0000 && |s.timestamp| == 4
            && |s.nameType| == (if f.version == 2 then 4 else 0)
            && var k := at + |s.nameType| + 4;
            && k + 5 + |s.key| + |s.tail| == end
            && Lies(data, at, s.nameType) && Lies(data, k - 4, s.timestamp) && Lies(data, k, KeyHeader(f, s))
            && Lies(data, k + 5, s.key) && Lies(data, k + 5 + |s.key|, s.tail)
  {
    hide U16, U32, KeyHeader, Kvno;
    var s := SlotOf(data, f, count, realm, comps, at, end);
    var k := at + (if f.version == 2 then 8 else 4);
    HeaderIs(data, f, k, s);
    var after := k + 5 + |s.key|;
    SliceLies(data, at, k - 4);
    SliceLies(data, k - 4, k);
    SliceLies(data, k + 5, after);
    SliceLies(data, after, end);
  }

  lemma {:induction false} PartsJoin(data: bytes, f: Format, s: Slot, at: nat)
    requires s.Stored? && -0x8000 <= s.enctype < 0x8000 && |s.key| < 0x1_0000 && |s.timestamp| == 4
    requires Lies(data, at, s.nameType) && Lies(data, at + |s.nameType|, s.timestamp)
    requires var k := at + |s.nameType| + 4;
             Lies(data, k, KeyHeader(f, s)) && Lies(data, k + 5, s.key) && Lies(data, k + 5 + |s.key|, s.tail)
    ensures Lies(data, at, KeyBytes(f, s))
    ensures |KeyBytes(f, s)| == |s.nameType| + 9 + |s.key| + |s.tail|
  {
    hide Lies, KeyHeader;
    KeyHeaderSize(f, s);
    var k := at + |s.nameType| + 4;
    LiesSplit(data, at, s.nameType, s.timestamp);
    LiesSplit(data, k + 5, s.key, s.tail);
    LiesSplit(data, k, KeyHeader(f, s), s.key + s.tail);
    LiesSplit(data, at, s.nameType + s.timestamp, KeyHeader(f, s) + (s.key + s.tail));
  }

  // The key version is the one the slot gives.
  lemma {:induction false} KvnoIs(data: bytes, f: Format, count: nat, realm: bytes, comps: seq<bytes>, at: nat,
                                  end: nat)
    requires end <= |data| && KeyPart(data, f, at, end).Some?
    ensures KeyPart(data, f, at, end).value.0 == Kvno(f, SlotOf(data, f, count, realm, comps, at, end))
  {
    hide U16, U32;
    var s := SlotOf(data, f, count, realm, comps, at, end);
    if |s.tail| >= 4 {
      SliceLies(data, end - |s.tail|, end);
      TailReads(data, f, end - |s.tail|, s.tail);
    }
  }

  lemma {:induction false} KeyPartIs(data: bytes, f: Format, count: nat, realm: bytes, comps: seq<bytes>, at: nat,
                                     end: nat)
    requires end <= |data| && KeyPart(data, f, at, end).Some? && (f.version == 1 || f.version == 2)
    ensures var s := SlotOf(data, f, count, realm, comps, at, end);
            && -0x8000 <= s.enctype < 0x8000 && |s.key| < 0x1_0000 && |s.timestamp| == 4
            && |s.nameType| == (if f.version == 2 then 4 else 0)
            && Lies(data, at, KeyBytes(f, s)) && at + |KeyBytes(f, s)| == end
            && KeyPart(data, f, at, end).value.0 == Kvno(f, s)
  {
    hide U16, U32, KeyHeader, KeyPart, Kvno, Lies, KeyBytes;
    PartsLie(data, f, count, realm, comps, at, end);
    KvnoIs(data, f, count, realm, comps, at, end);
    PartsJoin(data, f, SlotOf(data, f, count, realm, comps, at, end), at);
  }

  lemma {:induction false} KeyHeaderSize(f: Format, s: Slot)
    requires s.Stored? && -0x8000 <= s.enctype < 0x8000 && |s.key| < 0x1_0000
    ensures |KeyHeader(f, s)| == 5
  {
    hide U16;
  }

  lemma {:induction false} SliceLies(data: bytes, i: nat, j: nat)
    requires i <= j <= |data|
    ensures Lies(data, i, data[i..j])
  {
  }

  lemma {:induction false} EntryIs(data: bytes, f: Format, at: nat, end: nat) returns (s: Slot)
    requires end <= |data| && ReadEntry(data, f, at, end).Some? && (f.version == 1 || f.version == 2)
    requires end - at < 0x8000_0000
    ensures s.Stored? && Encodable(f, s) && Lies(data, at, Body(f, s)) && at + |Body(f, s)| == end
    ensures ReadEntry(data, f, at, end) == Some(Entry(s.components, s.realm, Kvno(f, s), s.enctype))
  {
    hide U16, U32, Field, Fields, KeyPart, KeyBytes, PutField, PutFields, SlotOf, Kvno, Put16;
    var o := f.order;
    var count := U16(o, data, at);
    var (realm, next) := Field(data, o, at + 2, end).value;
    var (comps, after) := Fields(data, o, next, end, Components(f, count)).value;
    FieldIs(data, o, at + 2, end);
    FieldsAre(data, o, next, end, Components(f, count));
    KeyPartIs(data, f, count, realm, comps, after, end);
    s := SlotOf(data, f, count, realm, comps, after, end);
    SlotParts(data, f, count, realm, comps, after, end);
    Put16OfU16(o, data, at);
    SliceLies(data, at, at + 2);
    BodyIs(data, f, s, at, next, after, end);
  }

  lemma {:induction false} SlotParts(data: bytes, f: Format, count: nat, realm: bytes, comps: seq<bytes>, at: nat,
                                     end: nat)
    requires end <= |data| && KeyPart(data, f, at, end).Some?
    ensures var s := SlotOf(data, f, count, realm, comps, at, end);
            && s.Stored? && s.count == count && s.realm == realm && s.components == comps
            && s.enctype == KeyPart(data, f, at, end).value.1
  {
    hide U16, U32;
  }

  lemma {:induction false} BodyIs(data: bytes, f: Format, s: Slot, at: nat, next: nat, after: nat, end: nat)
    requires s.Stored? && |s.realm| < 0x1_0000 && s.count < 0x1_0000 && ShortFields(s.components)
    requires -0x8000 <= s.enctype < 0x8000 && |s.key| < 0x1_0000
    requires Lies(data, at, Put16(f.order, s.count))
    requires Lies(data, at + 2, PutField(f.order, s.realm)) && at + 2 + |PutField(f.order, s.realm)| == next
    requires Lies(data, next, PutFields(f.order, s.components)) && next + |PutFields(f.order, s.components)| == after
    requires Lies(data, after, KeyBytes(f, s)) && after + |KeyBytes(f, s)| == end
    ensures Lies(data, at, Body(f, s)) && at + |Body(f, s)| == end
  {
    hide U16, Put16, PutField, PutFields, KeyBytes, Lies, ShortFields;
    LiesSplit(data, next, PutFields(f.order, s.components), KeyBytes(f, s));
    LiesSplit(data, at + 2, PutField(f.order, s.realm), PutFields(f.order, s.components) + KeyBytes(f, s));
    LiesSplit(data, at, Put16(f.order, s.count),
              PutField(f.order, s.realm) + (PutFields(f.order, s.components) + KeyBytes(f, s)));
  }

  // One more slot before those that follow.
  lemma {:induction false} MoreSlots(data: bytes, f: Format, pos: nat, s: Slot, ss: seq<Slot>, end: bytes)
    requires Encodable(f, s) && AllEncodable(f, ss) && Lies(data, pos, EncodeSlot(f, s))
    requires Lies(data, pos + |EncodeSlot(f, s)|, EncodeSlots(f, ss) + end)
    requires pos + |EncodeSlot(f, s)| + |EncodeSlots(f, ss)| + |end| == |data|
    ensures AllEncodable(f, [s] + ss) && Lies(data, pos, EncodeSlots(f, [s] + ss) + end)
    ensures pos + |EncodeSlots(f, [s] + ss)| + |end| == |data|
  {
    hide EncodeSlot, Encodable, Lies;
    assert ([s] + ss)[1..] == ss;
    LiesSplit(data, pos, EncodeSlot(f, s), EncodeSlots(f, ss) + end);
    assert EncodeSlots(f, [s] + ss) + end == EncodeSlot(f, s) + (EncodeSlots(f, ss) + end);
  }

  lemma {:induction false} RecordsAreSlots(data: bytes, f: Format, pos: nat) returns (ss: seq<Slot>, end: bytes)
    requires pos <= |data| && Records(data, f, pos).Some? && (f.version == 1 || f.version == 2)
    ensures AllEncodable(f, ss) && IsEnd(f, end)
    ensures Lies(data, pos, EncodeSlots(f, ss) + end) && pos + |EncodeSlots(f, ss)| + |end| == |data|
    decreases |data| - pos
  {
    hide U32, Put32, ReadEntry, Body, Encodable;
    if pos + 4 > |data| {
      ss, end := [], data[pos..];
      LastEnd(data, f, pos);
      return;
    }
    var length := Signed32(U32(f.order, data, pos));
    if length == 0 || (length < 0 && pos + 4 - length > |data|) {
      ss, end := [], data[pos..];
      LastEnd(data, f, pos);
    } else if length < 0 {
      var s := HoleIs(data, f, pos);
      ss, end := RecordsAreSlots(data, f, pos + 4 - length);
      MoreSlots(data, f, pos, s, ss, end);
      ss := [s] + ss;
    } else {
      var s := StoredIs(data, f, pos);
      ss, end := RecordsAreSlots(data, f, pos + 4 + length);
      MoreSlots(data, f, pos, s, ss, end);
      ss := [s] + ss;
    }
  }

  lemma {:induction false} LastEnd(data: bytes, f: Format, pos: nat)
    requires pos <= |data|
    requires pos + 4 > |data|
             || var length := Signed32(U32(f.order, data, pos));
                length == 0 || (length < 0 && pos + 4 - length > |data|)
    ensures IsEnd(f, data[pos..]) && Lies(data, pos, EncodeSlots(f, []) + data[pos..])
  {
    hide U32;
    assert EncodeSlots(f, []) + data[pos..] == data[pos..];
    if pos + 4 <= |data| {
      U32Slice(f.order, data, pos);
      U32Slice(f.order, data[pos..], 0);
      assert data[pos..][0..4] == data[pos..pos + 4];
    }
  }

  lemma {:induction false} HoleIs(data: bytes, f: Format, pos: nat) returns (s: Slot)
    requires pos + 4 <= |data|
    requires var length := Signed32(U32(f.order, data, pos)); length < 0 && pos + 4 - length <= |data|
    ensures Encodable(f, s) && Lies(data, pos, EncodeSlot(f, s))
    ensures pos + |EncodeSlot(f, s)| == pos + 4 - Signed32(U32(f.order, data, pos))
  {
    hide U32, Put32;
    var length := Signed32(U32(f.order, data, pos));
    var junk := data[pos + 4..pos + 4 - length];
    s := Hole(junk);
    Put32OfU32(f.order, data, pos);
    SliceLies(data, pos, pos + 4);
    LiesSplit(data, pos, Put32(f.order, TWO_32 - |junk|), junk);
  }

  lemma {:induction false} StoredIs(data: bytes, f: Format, pos: nat) returns (s: Slot)
    requires pos + 4 <= |data| && (f.version == 1 || f.version == 2)
    requires var length := Signed32(U32(f.order, data, pos));
             length > 0 && pos + 4 + length <= |data| && ReadEntry(data, f, pos + 4, pos + 4 + length).Some?
    ensures Encodable(f, s) && Lies(data, pos, EncodeSlot(f, s))
    ensures pos + |EncodeSlot(f, s)| == pos + 4 + Signed32(U32(f.order, data, pos))
  {
    hide U32, Put32, ReadEntry, Body, ShortFields, Kvno;
    var length := Signed32(U32(f.order, data, pos));
    s := EntryIs(data, f, pos + 4, pos + 4 + length);
    Put32OfU32(f.order, data, pos);
    SliceLies(data, pos, pos + 4);
    LiesSplit(data, pos, Put32(f.order, |Body(f, s)|), Body(f, s));
  }

  // The bytes are laid out as a keytab that says this.
  ghost predicate IsKeytab(data: bytes, native: Order, k: KeytabFile) {
    var f := LayoutOf(k.version, native);
    && (k.version == 1 || k.version == 2)
    && exists ss, end ::
         AllEncodable(f, ss) && IsEnd(f, end) && data == File(f, ss, end) && k.entries == Meanings(f, ss)
  }

  lemma {:induction false} ParsedIsKeytab(data: bytes, native: Order)
    requires Parse(data, native).Some?
    ensures IsKeytab(data, native, Parse(data, native).value)
  {
    hide Records, EncodeSlots, Meanings, AllEncodable, IsEnd;
    var f := LayoutOf(data[1], native);
    var ss, end := RecordsAreSlots(data, f, 2);
    assert data == [data[0], data[1]] + data[2..];
    assert data[2..2 + |EncodeSlots(f, ss) + end|] == data[2..];
    assert data == File(f, ss, end);
    ParseRecovers(data[1], native, ss, end);
  }

  /** Exactness: the reader finds these entries if and only if the bytes are laid out as a keytab that holds
      them, with holes anywhere, one that runs past the end included. */
  lemma {:induction false} ReadsExactlyKeytabs(data: bytes, native: Order, k: KeytabFile)
    ensures Parse(data, native) == Some(k) <==> IsKeytab(data, native, k)
  {
    hide Parse, File, AllEncodable, IsEnd, Meanings;
    if Parse(data, native).Some? {
      ParsedIsKeytab(data, native);
    }
    if IsKeytab(data, native, k) {
      var f := LayoutOf(k.version, native);
      var ss, end :|
        AllEncodable(f, ss) && IsEnd(f, end) && data == File(f, ss, end) && k.entries == Meanings(f, ss);
      ParseRecovers(k.version, native, ss, end);
    }
  }
}
