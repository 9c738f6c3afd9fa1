/** The rpm header decoder, and the encoder whose output it reads back. */
module RpmHeader {
  import opened Bytes
  import opened Options

  datatype Value = Str(text: bytes) | Int(n: nat)

  type Package = map<string, Value>

  const TYPE_INT32: nat := 4
  const TYPE_STRING: nat := 6
  const TYPE_I18NSTRING: nat := 9
  const MAX_TAGS: nat := 0xFFFF
  const MAX_DATA: nat := 0x0FFF_FFFF

  // The header tags that are read.
  function KeyOf(tag: nat): Option<string> {
    match tag
    case 1000 => Some("name")
    case 1001 => Some("version")
    case 1002 => Some("release")
    case 1003 => Some("epoch")
    case 1022 => Some("arch")
    case 1044 => Some("sourcerpm")
    case _ => None
  }

  predicate IsString(typ: nat) {
    typ == TYPE_STRING || typ == TYPE_I18NSTRING
  }

  // blob.find(b"\0", start, end)
  function FindNul(blob: bytes, start: nat, end: nat): (r: Option<nat>)
    requires end <= |blob|
    ensures r.Some? ==> start <= r.value < end && blob[r.value] == 0
    decreases end - start
  {
    if start >= end then None
    else if blob[start] == 0 then Some(start)
    else FindNul(blob, start + 1, end)
  }

  // ---- Decoding ----

  // One index entry {tag, type, offset} applied to what is known so far.
  function Entry(blob: bytes, base: nat, dl: nat, tag: nat, typ: nat, off: nat, out: Package): Option<Package>
    requires base + dl <= |blob|
  {
    match KeyOf(tag)
    case None => Some(out)
    case Some(key) =>
      if off >= dl then None
      else if IsString(typ) then
        match FindNul(blob, base + off, base + dl)
        case None => None
        case Some(end) => Some(out[key := Str(blob[base + off..end])])
      else if typ == TYPE_INT32 then
        if off + 4 > dl then None else Some(out[key := Int(U32(Big, blob, base + off))])
      else Some(out)
  }

  // Index entries i..il.
  function Entries(blob: bytes, base: nat, dl: nat, i: nat, il: nat, out: Package): Option<Package>
    requires base + dl <= |blob| && base == 8 + 16 * il && i <= il
    decreases il - i
  {
    if i == il then Some(out)
    else
      var at := 8 + 16 * i;
      match Entry(blob, base, dl, U32(Big, blob, at), U32(Big, blob, at + 4), U32(Big, blob, at + 8), out)
      case None => None
      case Some(out1) => Entries(blob, base, dl, i + 1, il, out1)
  }

  predicate HasNameAndVersion(p: Package) {
    "name" in p && "version" in p
  }

  function Parse(blob: bytes): (r: Option<Package>)
    ensures r.Some? ==> HasNameAndVersion(r.value)
  {
    if |blob| < 8 then None
    else
      var il, dl := U32(Big, blob, 0), U32(Big, blob, 4);
      if !(0 < il <= MAX_TAGS) || dl > MAX_DATA then None
      else if 8 + 16 * il + dl > |blob| then None
      else match Entries(blob, 8 + 16 * il, dl, 0, il, map[])
        case None => None
        case Some(out) => if HasNameAndVersion(out) then Some(out) else None
  }

  /** The decoder loop. */
  method ParseRpmHeader(blob: bytes) returns (r: Option<Package>)
    ensures r == Parse(blob)
  {
    hide U32, FindNul, KeyOf;
    if |blob| < 8 {
      return None;
    }
    var il, dl := U32(Big, blob, 0), U32(Big, blob, 4);
    if !(0 < il <= MAX_TAGS) || dl > MAX_DATA {
      return None;
    }
    var base := 8 + 16 * il;
    if base + dl > |blob| {
      return None;
    }
    var out: Package := map[];
    var i := 0;
    ghost var whole := Entries(blob, base, dl, 0, il, out);
    while i < il
      invariant i <= il
      invariant Entries(blob, base, dl, i, il, out) == whole
    {
      var at := 8 + 16 * i;
      var tag, typ, off := U32(Big, blob, at), U32(Big, blob, at + 4), U32(Big, blob, at + 8);
      i := i + 1;
      var key := KeyOf(tag);
      if key == None {
        continue;
      }
      if off >= dl {
        return None;
      }
      var start := base + off;
      if IsString(typ) {
        var end := FindNul(blob, start, base + dl);
        if end == None {
          return None;
        }
        out := out[key.value := Str(blob[start..end.value])];
      } else if typ == TYPE_INT32 {
        if off + 4 > dl {
          return None;
        }
        out := out[key.value := Int(U32(Big, blob, start))];
      }
    }
    r := if HasNameAndVersion(out) then Some(out) else None;
  }

  // ---- Encoding ----

  // A tag with its data; `pad` is what alignment puts before it.
  datatype Field = Field(tag: nat, typ: nat, count: nat, pad: bytes, raw: bytes)

  // The tags that are read, with what they hold.
  const TAGS: map<nat, string> := map[
    1000 := "name", 1001 := "version", 1002 := "release", 1003 := "epoch", 1022 := "arch", 1044 := "sourcerpm"]

  // The data of a tag that is read has the shape its type calls for: 6 and 9 are strings, 4 is a number.
  predicate WellTyped(f: Field) {
    && f.tag < TWO_32 && f.typ < TWO_32 && f.count < TWO_32
    && (f.tag in TAGS ==>
          if f.typ == 6 || f.typ == 9 then 0 in f.raw
          else if f.typ == 4 then |f.raw| >= 4
          else f.raw != [])
  }

  lemma {:induction false} TagsAre(tag: nat)
    ensures KeyOf(tag) == if tag in TAGS then Some(TAGS[tag]) else None
  {
  }

  ghost predicate AllWellTyped(fs: seq<Field>) {
    forall i | 0 <= i < |fs| :: WellTyped(fs[i])
  }

  function Data(fs: seq<Field>): bytes {
    if fs == [] then [] else fs[0].pad + fs[0].raw + Data(fs[1..])
  }

  function IndexEntry(f: Field, off: nat): (s: bytes)
    requires WellTyped(f) && off < TWO_32
    ensures |s| == 16
  {
    Put32(Big, f.tag) + Put32(Big, f.typ) + Put32(Big, off) + Put32(Big, f.count)
  }

  // The index of fields whose data starts at `off`.
  function Index(fs: seq<Field>, off: nat): (s: bytes)
    requires AllWellTyped(fs) && off + |Data(fs)| < TWO_32
    ensures |s| == 16 * |fs|
    decreases |fs|
  {
    if fs == [] then []
    else IndexEntry(fs[0], off + |fs[0].pad|) + Index(fs[1..], off + |fs[0].pad| + |fs[0].raw|)
  }

  function Encode(fs: seq<Field>): bytes
    requires AllWellTyped(fs) && |fs| < TWO_32 && |Data(fs)| < TWO_32
  {
    Put32(Big, |fs|) + Put32(Big, |Data(fs)|) + Index(fs, 0) + Data(fs)
  }

  function BeforeNul(s: bytes): bytes
    requires 0 in s
  {
    if s[0] == 0 then [] else [s[0]] + BeforeNul(s[1..])
  }

  function FieldValue(f: Field, out: Package): Package
    requires WellTyped(f)
  {
    if f.tag !in TAGS then out
    else if f.typ == 6 || f.typ == 9 then out[TAGS[f.tag] := Str(BeforeNul(f.raw))]
    else if f.typ == 4 then out[TAGS[f.tag] := Int(U32(Big, f.raw, 0))]
    else out
  }

  // What the fields say: the first string or number of every tag that is read, later tags winning.
  function Meaning(fs: seq<Field>, out: Package): Package
    requires AllWellTyped(fs)
    decreases |fs|
  {
    if fs == [] then out else Meaning(fs[1..], FieldValue(fs[0], out))
  }

  lemma {:induction false} FindNulFinds(blob: bytes, start: nat, end: nat, raw: bytes)
    requires end <= |blob| && start + |raw| <= end && blob[start..start + |raw|] == raw && 0 in raw
    ensures var r := FindNul(blob, start, end);
            r.Some? && blob[start..r.value] == BeforeNul(raw)
    decreases |raw|
  {
    assert blob[start] == raw[0];
    if raw[0] != 0 {
      var rest := raw[1..];
      assert raw == [raw[0]] + rest;
      assert blob[start + 1..start + 1 + |rest|] == rest;
      FindNulFinds(blob, start + 1, end, rest);
      var k := FindNul(blob, start + 1, end).value;
      HeadAndRest(blob, start, k);
    }
  }

  lemma {:induction false} HeadAndRest(s: bytes, i: nat, k: nat)
    requires i < k <= |s|
    ensures s[i..k] == [s[i]] + s[i + 1..k]
  {
  }

  // The blob holds the index and the data of `fs`, from index entry i and data offset `off` on.
  ghost predicate Holds(blob: bytes, base: nat, dl: nat, i: nat, off: nat, fs: seq<Field>) {
    && AllWellTyped(fs) && off + |Data(fs)| <= dl < TWO_32 && base + dl <= |blob|
    && base == 8 + 16 * (i + |fs|)
    && blob[8 + 16 * i..base] == Index(fs, off)
    && blob[base + off..base + off + |Data(fs)|] == Data(fs)
  }

  lemma {:induction false} HoldsHead(blob: bytes, base: nat, dl: nat, i: nat, off: nat, fs: seq<Field>)
    requires Holds(blob, base, dl, i, off, fs) && fs != []
    ensures var at, f := 8 + 16 * i, fs[0];
            && at + 16 <= |blob|
            && U32(Big, blob, at) == f.tag && U32(Big, blob, at + 4) == f.typ
            && U32(Big, blob, at + 8) == off + |f.pad|
    ensures var f, start := fs[0], off + |fs[0].pad|;
            && start + |f.raw| <= dl
            && blob[base + start..base + start + |f.raw|] == f.raw
            && Holds(blob, base, dl, i + 1, start + |f.raw|, fs[1..])
  {
    hide U32, Put32, Data, Index, WellTyped;
    var at, f := 8 + 16 * i, fs[0];
    var start := off + |f.pad|;
    var rest := fs[1..];
    DataUnfolds(fs, off);
    var whole := blob[at..base];
    assert whole[..16] == blob[at..at + 16];
    assert whole[16..] == blob[at + 16..base];
    EntryFields(blob, at, f, start);
    var data := blob[base + off..base + off + |Data(fs)|];
    SliceOfSlice(blob, base + off, base + off + |Data(fs)|, |f.pad|, |f.pad| + |f.raw|);
    assert data[|f.pad| + |f.raw|..] == blob[base + start + |f.raw|..base + off + |Data(fs)|];
  }

  lemma {:induction false} DataUnfolds(fs: seq<Field>, off: nat)
    requires fs != [] && AllWellTyped(fs) && off + |Data(fs)| < TWO_32
    ensures var f, rest := fs[0], fs[1..];
            var next := off + |f.pad| + |f.raw|;
            && WellTyped(f) && AllWellTyped(rest)
            && |Data(fs)| == |f.pad| + |f.raw| + |Data(rest)|
            && Data(fs)[|f.pad|..|f.pad| + |f.raw|] == f.raw && Data(fs)[|f.pad| + |f.raw|..] == Data(rest)
            && Index(fs, off)[..16] == IndexEntry(f, off + |f.pad|) && Index(fs, off)[16..] == Index(rest, next)
  {
    hide U32, Put32, IndexEntry;
  }

  lemma {:induction false} EntryFields(blob: bytes, at: nat, f: Field, off: nat)
    requires WellTyped(f) && off < TWO_32 && at + 16 <= |blob| && blob[at..at + 16] == IndexEntry(f, off)
    ensures U32(Big, blob, at) == f.tag && U32(Big, blob, at + 4) == f.typ && U32(Big, blob, at + 8) == off
  {
    hide U32, Put32, Sum4;
    var e := blob[at..at + 16];
    assert e[0..4] == Put32(Big, f.tag) && e[4..8] == Put32(Big, f.typ) && e[8..12] == Put32(Big, off);
    SliceOfSlice(blob, at, at + 16, 0, 4);
    SliceOfSlice(blob, at, at + 16, 4, 8);
    SliceOfSlice(blob, at, at + 16, 8, 12);
    U32Slice(Big, blob, at);
    U32Slice(Big, blob, at + 4);
    U32Slice(Big, blob, at + 8);
  }

  lemma {:induction false} EntryReads(blob: bytes, base: nat, dl: nat, off: nat, f: Field, out: Package)
    requires WellTyped(f) && base + dl <= |blob| && off + |f.raw| <= dl
    requires blob[base + off..base + off + |f.raw|] == f.raw
    ensures Entry(blob, base, dl, f.tag, f.typ, off, out) == Some(FieldValue(f, out))
  {
    TagsAre(f.tag);
    hide TAGS;
    if KeyOf(f.tag).Some? {
      if IsString(f.typ) {
        FindNulFinds(blob, base + off, base + dl, f.raw);
      } else if f.typ == TYPE_INT32 {
        U32Slice(Big, blob, base + off);
        U32Slice(Big, f.raw, 0);
        assert f.raw[0..4] == blob[base + off..base + off + 4];
      }
    }
  }

  lemma {:induction false} EntriesRead(blob: bytes, base: nat, dl: nat, i: nat, off: nat, fs: seq<Field>, out: Package)
    requires Holds(blob, base, dl, i, off, fs)
    ensures Entries(blob, base, dl, i, i + |fs|, out) == Some(Meaning(fs, out))
    decreases |fs|
  {
    hide U32, Put32, Data, Index, Entry, FieldValue;
    if fs != [] {
      assert AllWellTyped(fs);
      HoldsHead(blob, base, dl, i, off, fs);
      var start := off + |fs[0].pad|;
      EntryReads(blob, base, dl, start, fs[0], out);
      EntriesRead(blob, base, dl, i + 1, start + |fs[0].raw|, fs[1..], FieldValue(fs[0], out));
    }
  }

  /** Decoding undoes encoding: for all fields, whatever alignment bytes lie between them and whatever
      bytes follow, the header reads as what its fields say, and is refused exactly when it is empty, too
      large, or has no name or version. */
  lemma {:induction false} ParseUndoesEncode(fs: seq<Field>, trailing: bytes)
    requires AllWellTyped(fs) && |fs| < TWO_32 && |Data(fs)| < TWO_32
    ensures Parse(Encode(fs) + trailing) ==
            if 0 < |fs| < 0x1_0000 && |Data(fs)| < 0x1000_0000
               && "name" in Meaning(fs, map[]) && "version" in Meaning(fs, map[])
            then Some(Meaning(fs, map[])) else None
  {
    hide U32, Put32, Data, Index, Entries, Meaning;
    var blob := Encode(fs) + trailing;
    var il, dl := |fs|, |Data(fs)|;
    var base := 8 + 16 * il;
    assert blob[0..4] == Put32(Big, il) && blob[4..8] == Put32(Big, dl);
    U32Slice(Big, blob, 0);
    U32Slice(Big, blob, 4);
    assert blob[8..base] == Index(fs, 0);
    assert blob[base..base + dl] == Data(fs);
    assert Holds(blob, base, dl, 0, 0, fs);
    EntriesRead(blob, base, dl, 0, 0, fs, map[]);
  }
}
