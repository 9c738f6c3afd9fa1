/** The rpm headers the decoder accepts, wherever in the data their index entries point. */
module RpmHeaderExact {
  import opened Bytes
  import opened Options
  import opened RpmHeader

  datatype IndexEntry = IndexEntry(tag: nat, typ: nat, off: nat, count: nat)

  ghost predicate Narrow(es: seq<IndexEntry>) {
    forall i | 0 <= i < |es| ::
      es[i].tag < TWO_32 && es[i].typ < TWO_32 && es[i].off < TWO_32 && es[i].count < TWO_32
  }

  ghost function IndexBytes(es: seq<IndexEntry>): (s: bytes)
    requires Narrow(es)
    ensures |s| == 16 * |es|
  {
    if es == [] then []
    else Put32(Big, es[0].tag) + Put32(Big, es[0].typ) + Put32(Big, es[0].off) + Put32(Big, es[0].count)
         + IndexBytes(es[1..])
  }

  // {entries, length of the data}, the index, the data, and anything behind it.
  ghost predicate IsHeader(blob: bytes, es: seq<IndexEntry>, data: bytes, trailing: bytes) {
    && 0 < |es| < 0x1_0000 && |data| < 0x1000_0000 && Narrow(es)
    && blob == Put32(Big, |es|) + Put32(Big, |data|) + IndexBytes(es) + data + trailing
  }

  // What a tag that is read points to lies in the data: a string (types 6 and 9) up to its terminator, a number
  // (type 4) with all four bytes, anything else with its first byte.
  ghost predicate Points(e: IndexEntry, data: bytes) {
    e.tag in TAGS ==>
      && e.off < |data|
      && (e.typ == 6 || e.typ == 9 ==> 0 in data[e.off..])
      && (e.typ == 4 ==> e.off + 4 <= |data|)
  }

  ghost predicate AllPoint(es: seq<IndexEntry>, data: bytes) {
    forall i | 0 <= i < |es| :: Points(es[i], data)
  }

  ghost function SaysOne(e: IndexEntry, data: bytes, out: Package): Package
    requires Points(e, data)
  {
    if e.tag !in TAGS then out
    else if e.typ == 6 || e.typ == 9 then out[TAGS[e.tag] := Str(BeforeNul(data[e.off..]))]
    else if e.typ == 4 then out[TAGS[e.tag] := Int(U32(Big, data, e.off))]
    else out
  }

  // Later entries win.
  ghost function Says(es: seq<IndexEntry>, data: bytes, out: Package): Package
    requires AllPoint(es, data)
    decreases |es|
  {
    if es == [] then out else Says(es[1..], data, SaysOne(es[0], data, out))
  }

  // ---- One entry ----

  lemma {:induction false} NulIs(blob: bytes, start: nat, end: nat)
    requires start <= end <= |blob|
    ensures FindNul(blob, start, end).Some? <==> 0 in blob[start..end]
    ensures 0 in blob[start..end] ==>
              blob[start..FindNul(blob, start, end).value] == BeforeNul(blob[start..end])
    decreases end - start
  {
    if start < end {
      var s := blob[start..end];
      assert s[0] == blob[start] && s[1..] == blob[start + 1..end];
      assert s == [s[0]] + s[1..];
      NulIs(blob, start + 1, end);
      if s[0] != 0 && 0 in s {
        HeadAndRest(blob, start, FindNul(blob, start + 1, end).value);
      }
    }
  }

  lemma {:induction false} EntryMeans(blob: bytes, base: nat, dl: nat, e: IndexEntry, out: Package)
    requires base + dl <= |blob|
    ensures var data := blob[base..base + dl];
            Entry(blob, base, dl, e.tag, e.typ, e.off, out) ==
            if Points(e, data) then Some(SaysOne(e, data, out)) else None
  {
    hide U32, FindNul, BeforeNul;
    var data := blob[base..base + dl];
    TagsAre(e.tag);
    if e.tag in TAGS && e.off < dl {
      assert data[e.off..] == blob[base + e.off..base + dl];
      NulIs(blob, base + e.off, base + dl);
      if e.off + 4 <= dl {
        NumberMoves(blob, base, dl, e.off);
      }
    }
  }

  lemma {:induction false} NumberMoves(blob: bytes, base: nat, dl: nat, off: nat)
    requires base + dl <= |blob| && off + 4 <= dl
    ensures U32(Big, blob, base + off) == U32(Big, blob[base..base + dl], off)
  {
    hide U32;
    var data := blob[base..base + dl];
    SliceOfSlice(blob, base, base + dl, off, off + 4);
    U32Slice(Big, blob, base + off);
    U32Slice(Big, data, off);
  }

  // ---- The index ----

  // The index from entry i on lies where the decoder looks for it.
  ghost predicate HoldsIndex(blob: bytes, i: nat, es: seq<IndexEntry>) {
    Narrow(es) && Lies(blob, 8 + 16 * i, IndexBytes(es))
  }

  lemma {:induction false} FirstEntry(blob: bytes, i: nat, es: seq<IndexEntry>)
    requires HoldsIndex(blob, i, es) && es != []
    ensures 8 + 16 * i + 16 <= |blob| && HoldsIndex(blob, i + 1, es[1..])
    ensures var at, e := 8 + 16 * i, es[0];
            && U32(Big, blob, at) == e.tag && U32(Big, blob, at + 4) == e.typ && U32(Big, blob, at + 8) == e.off
            && U32(Big, blob, at + 12) == e.count
  {
    hide U32, Put32, Lies;
    var at, e := 8 + 16 * i, es[0];
    var a, b, c, d := Put32(Big, e.tag), Put32(Big, e.typ), Put32(Big, e.off), Put32(Big, e.count);
    LiesSplit(blob, at, a + b + c + d, IndexBytes(es[1..]));
    LiesSplit(blob, at, a + b + c, d);
    LiesSplit(blob, at, a + b, c);
    LiesSplit(blob, at, a, b);
    NumberLies(blob, at, e.tag);
    NumberLies(blob, at + 4, e.typ);
    NumberLies(blob, at + 8, e.off);
    NumberLies(blob, at + 12, e.count);
  }

  lemma {:induction false} NumberLies(blob: bytes, at: nat, n: nat)
    requires n < TWO_32 && Lies(blob, at, Put32(Big, n))
    ensures at + 4 <= |blob| && U32(Big, blob, at) == n
  {
    hide U32, Put32;
    U32Slice(Big, blob, at);
  }

  lemma {:induction false} EntriesMean(blob: bytes, base: nat, dl: nat, i: nat, es: seq<IndexEntry>, out: Package)
    requires base + dl <= |blob| && base == 8 + 16 * (i + |es|) && HoldsIndex(blob, i, es)
    ensures var data := blob[base..base + dl];
            Entries(blob, base, dl, i, i + |es|, out) ==
            if AllPoint(es, data) then Some(Says(es, data, out)) else None
    decreases |es|
  {
    hide U32, Entry, HoldsIndex, Points, SaysOne;
    if es != [] {
      var data := blob[base..base + dl];
      FirstEntry(blob, i, es);
      EntryMeans(blob, base, dl, es[0], out);
      PointsFirst(es, data);
      if Points(es[0], data) {
        EntriesMean(blob, base, dl, i + 1, es[1..], SaysOne(es[0], data, out));
      }
    }
  }

  lemma {:induction false} PointsFirst(es: seq<IndexEntry>, data: bytes)
    requires es != []
    ensures AllPoint(es, data) <==> Points(es[0], data) && AllPoint(es[1..], data)
  {
    hide Points;
    assert forall i | 0 < i < |es| :: es[i] == es[1..][i - 1];
  }

  lemma {:induction false} IndexOf(blob: bytes, i: nat, il: nat) returns (es: seq<IndexEntry>)
    requires i <= il && 8 + 16 * il <= |blob|
    ensures |es| == il - i && HoldsIndex(blob, i, es)
    decreases il - i
  {
    hide U32, Put32, Lies;
    if i == il {
      es := [];
      NothingLies(blob, 8 + 16 * i);
    } else {
      var at := 8 + 16 * i;
      var e := IndexEntry(U32(Big, blob, at), U32(Big, blob, at + 4), U32(Big, blob, at + 8), U32(Big, blob, at + 12));
      var rest := IndexOf(blob, i + 1, il);
      es := [e] + rest;
      assert es[1..] == rest;
      var a, b, c, d := Put32(Big, e.tag), Put32(Big, e.typ), Put32(Big, e.off), Put32(Big, e.count);
      NumberIs(blob, at);
      NumberIs(blob, at + 4);
      NumberIs(blob, at + 8);
      NumberIs(blob, at + 12);
      LiesSplit(blob, at, a, b);
      LiesSplit(blob, at, a + b, c);
      LiesSplit(blob, at, a + b + c, d);
      LiesSplit(blob, at, a + b + c + d, IndexBytes(rest));
    }
  }

  lemma {:induction false} NothingLies(blob: bytes, at: nat)
    ensures at <= |blob| ==> Lies(blob, at, [])
  {
  }

  lemma {:induction false} NumberIs(blob: bytes, at: nat)
    requires at + 4 <= |blob|
    ensures Lies(blob, at, Put32(Big, U32(Big, blob, at)))
  {
    hide U32, Put32;
    Put32OfU32(Big, blob, at);
  }

  // ---- Whole headers ----

  lemma {:induction false} HeaderLies(blob: bytes, es: seq<IndexEntry>, data: bytes, trailing: bytes)
    requires IsHeader(blob, es, data, trailing)
    ensures var base := 8 + 16 * |es|;
            && base + |data| <= |blob| && U32(Big, blob, 0) == |es| && U32(Big, blob, 4) == |data|
            && HoldsIndex(blob, 0, es) && blob[base..base + |data|] == data
  {
    hide U32, Put32, IndexBytes;
    var base := 8 + 16 * |es|;
    var a, b := Put32(Big, |es|), Put32(Big, |data|);
    assert blob[0..4] == a && blob[4..8] == b;
    U32Slice(Big, blob, 0);
    U32Slice(Big, blob, 4);
    assert blob[8..base] == IndexBytes(es);
    assert blob[base..base + |data|] == data;
  }

  /** Exactness: the decoder finds this package if and only if the blob is laid out as a header whose index, in order,
      says just that of the data, every entry that is read pointing into it, and both name and version are there. */
  lemma {:induction false} ReadsExactlyHeaders(blob: bytes, p: Package)
    ensures Parse(blob) == Some(p) <==>
            exists es, data, trailing ::
              && IsHeader(blob, es, data, trailing) && AllPoint(es, data) && Says(es, data, map[]) == p
              && "name" in p && "version" in p
  {
    hide IsHeader, AllPoint, Says, Parse;
    forall es, data, trailing | IsHeader(blob, es, data, trailing)
      ensures Parse(blob) == if AllPoint(es, data) && HasNameAndVersion(Says(es, data, map[]))
                             then Some(Says(es, data, map[])) else None
    {
      HeaderReads(blob, es, data, trailing);
    }
    if Parse(blob).Some? {
      var es, data, trailing := ParsedIsHeader(blob);
    }
  }

  lemma {:induction false} HeaderReads(blob: bytes, es: seq<IndexEntry>, data: bytes, trailing: bytes)
    requires IsHeader(blob, es, data, trailing)
    ensures Parse(blob) == if AllPoint(es, data) && HasNameAndVersion(Says(es, data, map[]))
                           then Some(Says(es, data, map[])) else None
  {
    hide U32, Put32, Entries, AllPoint, Says, HoldsIndex, IndexBytes, Narrow;
    HeaderLies(blob, es, data, trailing);
    EntriesMean(blob, 8 + 16 * |es|, |data|, 0, es, map[]);
  }

  lemma {:induction false} ParsedIsHeader(blob: bytes) returns (es: seq<IndexEntry>, data: bytes, trailing: bytes)
    requires Parse(blob).Some?
    ensures IsHeader(blob, es, data, trailing)
  {
    hide U32, Put32, Entries, Says, IndexBytes;
    var il, dl := U32(Big, blob, 0), U32(Big, blob, 4);
    var base := 8 + 16 * il;
    es := IndexOf(blob, 0, il);
    data, trailing := blob[base..base + dl], blob[base + dl..];
    Put32OfU32(Big, blob, 0);
    Put32OfU32(Big, blob, 4);
    assert blob == blob[0..4] + blob[4..8] + blob[8..base] + data + trailing;
  }
}
