/** What the ndb reader accepts, and the corruption it detects. */
module NdbImage {
  import opened Bytes
  import opened Options
  import opened BlobRun
  import opened Ndb
  import Adler32

  // ---- Corruption ----

  lemma {:induction false} FieldChanges(s: bytes, at: nat, i: nat, v: byte)
    requires at + 4 <= |s| && at <= i < at + 4 && v != s[i]
    ensures U32(Little, s[i := v], at) != U32(Little, s, at)
  {
    var t := s[i := v];
    U32Slice(Little, s, at);
    U32Slice(Little, t, at);
    assert t[at..at + 4][i - at] == v && s[at..at + 4][i - at] == s[i];
    if U32(Little, t, at) == U32(Little, s, at) {
      hide U32;
      U32Injective(Little, t[at..at + 4], s[at..at + 4]);
      assert false;
    }
  }

  lemma {:induction false} FieldStays(s: bytes, at: nat, i: nat, v: byte)
    requires at + 4 <= |s| && i < |s| && (i < at || i >= at + 4)
    ensures U32(Little, s[i := v], at) == U32(Little, s, at)
  {
  }

  // A region that reads as a blob no longer does once any byte of it is changed.
  lemma {:induction false} RegionDetects(region: bytes, index: nat, blkcnt: nat, i: nat, v: byte)
    requires |region| == blkcnt * BLK && ReadRegion(true, region, index, blkcnt).Blob?
    requires i < |region| && v != region[i]
    ensures ReadRegion(true, region[i := v], index, blkcnt) == Bad
  {
    hide U32;
    var t := region[i := v];
    var tail := |region| - BLOBTAIL;
    if i < tail {
      Adler32.DetectsOneByte(region[..tail], i, v);
      assert t[..tail] == region[..tail][i := v];
      FieldStays(region, tail, i, v);
    } else {
      FieldStays(region, 12, i, v);
      if i < tail + 4 {
        FieldChanges(region, tail, i, v);
        assert t[..tail] == region[..tail];
      } else if i < tail + 8 {
        FieldChanges(region, tail + 4, i, v);
      } else {
        assert t[tail + 8..][i - tail - 8] == v && region[tail + 8..][i - tail - 8] == region[i];
      }
    }
  }

  lemma {:induction false} BadSlotFails(file: bytes, g: Geometry, from: nat, k: nat)
    requires Fits(g) && from <= k < g.count && ReadSlot(file, g, k) == Bad
    ensures ReadSlots(file, g, from).end == Corrupt
    decreases k - from
  {
    hide ReadSlot;
    if from < k {
      BadSlotFails(file, g, from + 1, k);
    }
  }

  // The region a slot's fields give, changed in one byte.
  lemma {:induction false} SlotDetects(file: bytes, g: Geometry, k: nat, p: nat, v: byte)
    requires SLOT * (k + 1) <= |g.slots| && g.zlib && ReadSlot(file, g, k).Blob?
    requires var blkoff, blkcnt := U32(Little, g.slots, SLOT * k + 8), U32(Little, g.slots, SLOT * k + 12);
             blkoff * BLK <= p < (blkoff + blkcnt) * BLK
    requires p < |file| && v != file[p]
    ensures g.minBlk * BLK <= p && ReadSlot(file[p := v], g, k) == Bad
  {
    hide U32, ReadRegion;
    var index, blkoff, blkcnt :=
      U32(Little, g.slots, SLOT * k + 4), U32(Little, g.slots, SLOT * k + 8), U32(Little, g.slots, SLOT * k + 12);
    var lo, hi := blkoff * BLK, blkoff * BLK + blkcnt * BLK;
    var region := file[lo..hi];
    assert file[p := v][lo..hi] == region[p - lo := v];
    assert region[p - lo] == file[p];
    RegionDetects(region, index, blkcnt, p - lo, v);
  }

  // ---- The layout ----

  // A slot of the table, and what its blocks store: `checksum` is what the trailer holds.
  datatype Entry =
    | Empty(index: nat, blkcnt: nat)
    | Stored(index: nat, blkoff: nat, blkcnt: nat, generation: nat, blob: bytes, pad: bytes, checksum: nat)

  // The blocks of a stored entry are filled up with less than one block of padding.
  ghost predicate Encodable(e: Entry) {
    match e
    case Empty(index, blkcnt) => index < TWO_32 && blkcnt < TWO_32
    case Stored(index, blkoff, blkcnt, generation, blob, pad, checksum) =>
      && 0 < index < TWO_32 && 0 < blkoff < TWO_32 && generation < TWO_32 && checksum < TWO_32
      && |blob| < TWO_32 && blkcnt < TWO_32
      && 16 + |blob| + |pad| + 12 == blkcnt * 16 && |pad| < 16
  }

  // {"Slot", package index, block offset, block count}
  function SlotBytes(e: Entry): bytes
    requires Encodable(e)
  {
    match e
    case Empty(index, blkcnt) =>
      [0x53, 0x6C, 0x6F, 0x74] + Put32(Little, index) + Put32(Little, 0) + Put32(Little, blkcnt)
    case Stored(index, blkoff, blkcnt, _, _, _, _) =>
      [0x53, 0x6C, 0x6F, 0x74] + Put32(Little, index) + Put32(Little, blkoff) + Put32(Little, blkcnt)
  }

  // {"BlbS", package index, generation, length}, blob and padding: what the checksum covers.
  function Checked(e: Entry): bytes
    requires Encodable(e) && e.Stored?
  {
    [0x42, 0x6C, 0x62, 0x53] + Put32(Little, e.index) + Put32(Little, e.generation) + Put32(Little, |e.blob|)
    + e.blob + e.pad
  }

  // Head, blob, padding and the trailer {checksum, length, "BlbE"}.
  function RegionBytes(e: Entry): bytes
    requires Encodable(e) && e.Stored?
  {
    Checked(e) + (Put32(Little, e.checksum) + Put32(Little, |e.blob|) + [0x42, 0x6C, 0x62, 0x45])
  }

  // The file holds entry `e` in slot k of its `pages` slot pages, and its blob where the slot says: behind the
  // slot pages and before the end.
  ghost predicate HoldsEntry(file: bytes, size: nat, zlib: bool, pages: nat, k: nat, e: Entry) {
    && Encodable(e)
    && Lies(file, 16 * k, SlotBytes(e))
    && (e.Stored? ==>
          && 4096 * pages <= 16 * e.blkoff && 16 * (e.blkoff + e.blkcnt) <= size
          && Lies(file, 16 * e.blkoff, RegionBytes(e))
          && (zlib ==> e.checksum == Adler32.Checksum(Checked(e))))
  }

  // Entries from slot k to the end of the table.
  ghost predicate HoldsFrom(file: bytes, size: nat, zlib: bool, pages: nat, k: nat, es: seq<Entry>)
    decreases |es|
  {
    if es == [] then 16 * k == 4096 * pages
    else HoldsEntry(file, size, zlib, pages, k, es[0]) && HoldsFrom(file, size, zlib, pages, k + 1, es[1..])
  }

  datatype Image = Image(pages: nat, generation: nat, entries: seq<Entry>)

  // {"RpmP", version 0, generation, slot pages}
  function HeaderBytes(generation: nat, pages: nat): (s: bytes)
    requires generation < TWO_32 && pages < TWO_32
    ensures |s| == 16
  {
    [0x52, 0x70, 0x6D, 0x50] + Put32(Little, 0) + Put32(Little, generation) + Put32(Little, pages)
  }

  ghost predicate HasHeader(file: bytes, size: nat, pages: nat, generation: nat) {
    && 0 < pages && 0x100 * pages < TWO_32 && generation < TWO_32
    && size % 16 == 0 && 4096 * pages <= size && 4096 * pages <= |file|
    && Lies(file, 0, HeaderBytes(generation, pages))
  }

  /** The layout: header, slot table, and every stored blob where its slot says.  The header takes the place of
      two slots. */
  ghost predicate IsImage(file: bytes, size: nat, zlib: bool, image: Image) {
    && HasHeader(file, size, image.pages, image.generation)
    && HoldsFrom(file, size, zlib, image.pages, 2, image.entries)
  }

  // The stored blobs, in slot order.
  function Blobs(es: seq<Entry>): seq<bytes> {
    if es == [] then [] else (if es[0].Stored? then [es[0].blob] else []) + Blobs(es[1..])
  }

  // ---- Every image reads back ----

  // What the reader makes of the header.
  function GeometryOf(file: bytes, size: nat, zlib: bool, pages: nat): (g: Geometry)
    requires 0 < pages && PAGE * pages <= |file|
    ensures Fits(g)
  {
    Geometry(zlib, file[..PAGE * pages], pages * PAGE_SLOTS, pages * PAGE_BLKS, size / BLK)
  }

  function Meaning(e: Entry): SlotRead {
    if e.Stored? then Blob(e.blob) else Free
  }

  lemma {:induction false} SlotFields(s: bytes, off: nat, m: bytes, a: nat, b: nat, c: nat)
    requires off + SLOT <= |s| && |m| == 4 && a < TWO_32 && b < TWO_32 && c < TWO_32
    requires s[off..off + SLOT] == m + Put32(Little, a) + Put32(Little, b) + Put32(Little, c)
    ensures s[off..off + 4] == m
    ensures U32(Little, s, off + 4) == a && U32(Little, s, off + 8) == b && U32(Little, s, off + 12) == c
  {
    hide U32, Put32;
    var t := s[off..off + SLOT];
    SliceOfSlice(s, off, off + SLOT, 0, 4);
    SliceOfSlice(s, off, off + SLOT, 4, 8);
    SliceOfSlice(s, off, off + SLOT, 8, 12);
    SliceOfSlice(s, off, off + SLOT, 12, 16);
    assert t[0..4] == m;
    assert t[4..8] == Put32(Little, a);
    assert t[8..12] == Put32(Little, b);
    assert t[12..16] == Put32(Little, c);
    U32Slice(Little, s, off + 4);
    U32Slice(Little, s, off + 8);
    U32Slice(Little, s, off + 12);
  }

  // The blocks a blob needs are those with less than a block of padding.
  lemma {:induction false} BlocksAre(len: nat, pad: int, blkcnt: nat)
    requires BLOBHEAD + len + pad + BLOBTAIL == blkcnt * BLK
    ensures blkcnt == BlocksFor(len) <==> 0 <= pad < BLK
  {
  }

  lemma {:induction false} RegionReads(zlib: bool, e: Entry)
    requires Encodable(e) && e.Stored?
    requires zlib ==> e.checksum == Adler32.Checksum(Checked(e))
    ensures |RegionBytes(e)| == e.blkcnt * BLK
    ensures ReadRegion(zlib, RegionBytes(e), e.index, e.blkcnt) == Blob(e.blob)
  {
    hide U32, Put32, BlocksFor, Adler32.Checksum;
    var r := RegionBytes(e);
    var len := |e.blob|;
    var tail := |r| - BLOBTAIL;
    BlocksAre(len, |e.pad|, e.blkcnt);
    assert r[0..16] == BLOB_START + Put32(Little, e.index) + Put32(Little, e.generation) + Put32(Little, len);
    SlotFields(r, 0, BLOB_START, e.index, e.generation, len);
    assert r[..tail] == Checked(e);
    assert r[tail..tail + 4] == Put32(Little, e.checksum);
    assert r[tail + 4..tail + 8] == Put32(Little, len);
    U32Slice(Little, r, tail);
    U32Slice(Little, r, tail + 4);
    assert r[tail + 8..] == BLOB_END;
    assert r[BLOBHEAD..BLOBHEAD + len] == e.blob;
  }

  // A slot of the table is a slot of the file.
  lemma {:induction false} SlotOfTable(file: bytes, pages: nat, k: nat)
    requires SLOT * (k + 1) <= PAGE * pages <= |file|
    ensures var slots := file[..PAGE * pages];
            slots[SLOT * k..SLOT * k + SLOT] == file[SLOT * k..SLOT * k + SLOT]
  {
  }

  lemma {:induction false} HeldEntryReads(file: bytes, size: nat, zlib: bool, pages: nat, k: nat, e: Entry)
    requires 0 < pages && SLOT * (k + 1) <= PAGE * pages <= |file| && size % BLK == 0
    requires HoldsEntry(file, size, zlib, pages, k, e)
    ensures ReadSlot(file, GeometryOf(file, size, zlib, pages), k) == Meaning(e)
  {
    hide U32, Put32, BlocksFor, ReadRegion, Adler32.Checksum, RegionBytes, Checked;
    var g := GeometryOf(file, size, zlib, pages);
    SlotOfTable(file, pages, k);
    match e
    case Empty(index, blkcnt) => SlotFields(g.slots, SLOT * k, SLOT_MAGIC, index, 0, blkcnt);
    case Stored(index, blkoff, blkcnt, _, blob, _, _) =>
      SlotFields(g.slots, SLOT * k, SLOT_MAGIC, index, blkoff, blkcnt);
      RegionReads(zlib, e);
  }

  lemma {:induction false} HeldCount(file: bytes, size: nat, zlib: bool, pages: nat, k: nat, es: seq<Entry>)
    requires HoldsFrom(file, size, zlib, pages, k, es)
    ensures k + |es| == PAGE_SLOTS * pages
    decreases |es|
  {
    hide HoldsEntry;
    if es != [] {
      HeldCount(file, size, zlib, pages, k + 1, es[1..]);
    }
  }

  lemma {:induction false} HeldSlotsRead(file: bytes, size: nat, zlib: bool, pages: nat, k: nat, es: seq<Entry>)
    requires 0 < pages && PAGE * pages <= |file| && size % BLK == 0 && k <= PAGE_SLOTS * pages
    requires HoldsFrom(file, size, zlib, pages, k, es)
    ensures ReadSlots(file, GeometryOf(file, size, zlib, pages), k) == Run(Blobs(es), Complete)
    decreases |es|
  {
    hide HoldsEntry, ReadSlot;
    HeldCount(file, size, zlib, pages, k, es);
    if es != [] {
      HeldEntryReads(file, size, zlib, pages, k, es[0]);
      HeldSlotsRead(file, size, zlib, pages, k + 1, es[1..]);
    }
  }

  lemma {:induction false} HeaderReads(file: bytes, size: nat, zlib: bool, pages: nat, generation: nat)
    requires HasHeader(file, size, pages, generation)
    ensures ReadGeometry(file, size, zlib) == Some(GeometryOf(file, size, zlib, pages))
  {
    hide U32, Put32;
    var head := file[0..HEADER];
    SliceOfSlice(file, 0, HEADER, 0, SLOT);
    SlotFields(head, 0, DB_MAGIC, 0, generation, pages);
    assert file[0..PAGE * pages] == file[..PAGE * pages];
  }

  lemma {:induction false} ImageReads(file: bytes, size: nat, zlib: bool, image: Image)
    requires IsImage(file, size, zlib, image)
    ensures Read(file, size, zlib) == Run(Blobs(image.entries), Complete)
  {
    hide ReadGeometry, HoldsFrom, ReadSlots, HeaderBytes;
    HeaderReads(file, size, zlib, image.pages, image.generation);
    HeldSlotsRead(file, size, zlib, image.pages, HEADER_SLOTS, image.entries);
  }

  // ---- Whatever reads is an image ----

  // The entry a slot that reads holds.
  function EntryAt(file: bytes, g: Geometry, k: nat): Entry
    requires SLOT * (k + 1) <= |g.slots| && ReadSlot(file, g, k) != Bad
  {
    var off := SLOT * k;
    var index, blkoff, blkcnt :=
      U32(Little, g.slots, off + 4), U32(Little, g.slots, off + 8), U32(Little, g.slots, off + 12);
    if blkoff == 0 then Empty(index, blkcnt)
    else
      var region := file[blkoff * BLK..blkoff * BLK + blkcnt * BLK];
      var len := U32(Little, region, 12);
      var tail := |region| - BLOBTAIL;
      Stored(index, blkoff, blkcnt, U32(Little, region, 8), region[BLOBHEAD..BLOBHEAD + len],
             region[BLOBHEAD + len..tail], U32(Little, region, tail))
  }

  // The fields of a region and of its entry.
  ghost predicate HasFields(region: bytes, e: Entry)
    requires e.Stored?
  {
    && BLOBHEAD + |e.blob| + |e.pad| + BLOBTAIL == |region| && Encodable(e)
    && var len, tail := |e.blob|, |region| - BLOBTAIL;
    && region[0..4] == BLOB_START && U32(Little, region, 4) == e.index && U32(Little, region, 8) == e.generation
    && U32(Little, region, 12) == len && region[BLOBHEAD..BLOBHEAD + len] == e.blob
    && region[BLOBHEAD + len..tail] == e.pad && U32(Little, region, tail) == e.checksum
    && U32(Little, region, tail + 4) == len && region[tail + 8..] == BLOB_END
  }

  lemma {:induction false} CheckedIs(region: bytes, e: Entry)
    requires e.Stored? && HasFields(region, e)
    ensures region[..|region| - BLOBTAIL] == Checked(e)
  {
    hide U32, Put32;
    var len, tail := |e.blob|, |region| - BLOBTAIL;
    Put32OfU32(Little, region, 4);
    Put32OfU32(Little, region, 8);
    Put32OfU32(Little, region, 12);
    assert region[..tail] == region[0..4] + region[4..8] + region[8..12] + region[12..16]
                             + region[16..16 + len] + region[16 + len..tail];
  }

  lemma {:induction false} RegionIsEntry(region: bytes, e: Entry)
    requires e.Stored? && HasFields(region, e)
    ensures region == RegionBytes(e)
  {
    hide U32, Put32, Checked;
    var tail := |region| - BLOBTAIL;
    Put32OfU32(Little, region, tail);
    Put32OfU32(Little, region, tail + 4);
    CheckedIs(region, e);
    assert region == region[..tail] + (region[tail..tail + 4] + region[tail + 4..tail + 8] + region[tail + 8..]);
  }

  lemma {:induction false} SlotIsEntry(s: bytes, off: nat)
    requires off + SLOT <= |s|
    ensures s[off..off + SLOT] == s[off..off + 4] + Put32(Little, U32(Little, s, off + 4))
                                  + Put32(Little, U32(Little, s, off + 8)) + Put32(Little, U32(Little, s, off + 12))
  {
    Put32OfU32(Little, s, off + 4);
    Put32OfU32(Little, s, off + 8);
    Put32OfU32(Little, s, off + 12);
    hide U32, Put32;
    assert s[off..off + SLOT] == s[off..off + 4] + s[off + 4..off + 8] + s[off + 8..off + 12] + s[off + 12..off + 16];
  }

  lemma {:induction false} ReadRegionHolds(file: bytes, g: Geometry, k: nat)
    requires SLOT * (k + 1) <= |g.slots| && ReadSlot(file, g, k).Blob?
    ensures var e := EntryAt(file, g, k);
            && e.Stored? && Encodable(e) && e.blob == ReadSlot(file, g, k).blob
            && e.blkcnt == U32(Little, g.slots, SLOT * k + 12)
            && g.minBlk <= e.blkoff && e.blkoff + e.blkcnt <= g.fileBlks
            && Lies(file, BLK * e.blkoff, RegionBytes(e))
            && (g.zlib ==> e.checksum == Adler32.Checksum(Checked(e)))
  {
    hide U32, Put32, Adler32.Checksum, RegionBytes, Checked, BlocksFor;
    var e := EntryAt(file, g, k);
    var region := file[e.blkoff * BLK..e.blkoff * BLK + e.blkcnt * BLK];
    var len := U32(Little, region, 12);
    assert e.blkcnt == BlocksFor(len);
    BlocksAre(len, e.blkcnt * BLK - BLOBHEAD - BLOBTAIL - len, e.blkcnt);
    CheckedIs(region, e);
    RegionIsEntry(region, e);
  }

  lemma {:induction false} ReadSlotHolds(file: bytes, size: nat, zlib: bool, pages: nat, k: nat)
    requires 0 < pages && SLOT * (k + 1) <= PAGE * pages <= |file| && size % BLK == 0
    requires ReadSlot(file, GeometryOf(file, size, zlib, pages), k) != Bad
    ensures var g := GeometryOf(file, size, zlib, pages);
            var e := EntryAt(file, g, k);
            HoldsEntry(file, size, zlib, pages, k, e) && Meaning(e) == ReadSlot(file, g, k)
  {
    hide U32, Put32, Adler32.Checksum, RegionBytes, Checked, BlocksFor, ReadRegion;
    var g := GeometryOf(file, size, zlib, pages);
    SlotIsEntry(g.slots, SLOT * k);
    SlotOfTable(file, pages, k);
    if ReadSlot(file, g, k).Blob? {
      ReadRegionHolds(file, g, k);
    }
  }

  lemma {:induction false} ReadSlotsHeld(file: bytes, size: nat, zlib: bool, pages: nat, k: nat)
    returns (es: seq<Entry>)
    requires 0 < pages && PAGE * pages <= |file| && size % BLK == 0 && k <= PAGE_SLOTS * pages
    requires ReadSlots(file, GeometryOf(file, size, zlib, pages), k).end == Complete
    ensures HoldsFrom(file, size, zlib, pages, k, es)
    ensures Blobs(es) == ReadSlots(file, GeometryOf(file, size, zlib, pages), k).blobs
    decreases PAGE_SLOTS * pages - k
  {
    hide HoldsEntry, ReadSlot;
    if k == PAGE_SLOTS * pages {
      es := [];
    } else {
      ReadSlotHolds(file, size, zlib, pages, k);
      var rest := ReadSlotsHeld(file, size, zlib, pages, k + 1);
      es := [EntryAt(file, GeometryOf(file, size, zlib, pages), k)] + rest;
      assert es[1..] == rest;
    }
  }

  lemma {:induction false} ReadIsImage(file: bytes, size: nat, zlib: bool) returns (image: Image)
    requires Read(file, size, zlib).end == Complete
    ensures IsImage(file, size, zlib, image) && Blobs(image.entries) == Read(file, size, zlib).blobs
  {
    hide U32, Put32, HoldsFrom, ReadSlots;
    var head := file[0..HEADER];
    var g := ReadGeometry(file, size, zlib).value;
    var pages := U32(Little, head, 12);
    SlotIsEntry(head, 0);
    SliceOfSlice(file, 0, HEADER, 0, SLOT);
    assert file[0..PAGE * pages] == file[..PAGE * pages];
    assert g == GeometryOf(file, size, zlib, pages);
    var es := ReadSlotsHeld(file, size, zlib, pages, HEADER_SLOTS);
    image := Image(pages, U32(Little, head, 8), es);
  }

  /** Exactness: the reader reaches the end with blobs `bs` if and only if the file is laid out as a
      database that stores exactly `bs`, in slot order. */
  lemma {:induction false} ReadsExactlyImages(file: bytes, size: nat, zlib: bool, bs: seq<bytes>)
    ensures Read(file, size, zlib) == Run(bs, Complete) <==>
            exists image :: IsImage(file, size, zlib, image) && Blobs(image.entries) == bs
  {
    hide IsImage, ReadGeometry, ReadSlots;
    forall image | IsImage(file, size, zlib, image)
      ensures Read(file, size, zlib) == Run(Blobs(image.entries), Complete)
    {
      ImageReads(file, size, zlib, image);
    }
    if Read(file, size, zlib) == Run(bs, Complete) {
      var image := ReadIsImage(file, size, zlib);
    }
  }

  // ---- One byte ----

  // Byte p lies in the blocks of the entry.
  predicate InBlocks(e: Entry, p: nat) {
    e.Stored? && 16 * e.blkoff <= p < 16 * (e.blkoff + e.blkcnt)
  }

  lemma {:induction false} HeldEntry(file: bytes, size: nat, zlib: bool, pages: nat, k: nat, es: seq<Entry>, i: nat)
    requires HoldsFrom(file, size, zlib, pages, k, es) && i < |es|
    ensures HoldsEntry(file, size, zlib, pages, k + i, es[i])
    decreases |es|
  {
    hide HoldsEntry;
    if i > 0 {
      HeldEntry(file, size, zlib, pages, k + 1, es[1..], i - 1);
    }
  }

  lemma {:induction false} EntryFieldsRead(file: bytes, size: nat, zlib: bool, pages: nat, k: nat, e: Entry)
    requires 0 < pages && SLOT * (k + 1) <= PAGE * pages <= |file| && e.Stored?
    requires HoldsEntry(file, size, zlib, pages, k, e)
    ensures var slots := file[..PAGE * pages];
            U32(Little, slots, SLOT * k + 8) == e.blkoff && U32(Little, slots, SLOT * k + 12) == e.blkcnt
  {
    hide U32, Put32, RegionBytes;
    SlotOfTable(file, pages, k);
    SlotFields(file[..PAGE * pages], SLOT * k, SLOT_MAGIC, e.index, e.blkoff, e.blkcnt);
  }

  // The header and the slot pages are what the geometry comes from.
  lemma {:induction false} GeometryStays(file: bytes, size: nat, zlib: bool, p: nat, v: byte)
    requires ReadGeometry(file, size, zlib).Some? && p < |file|
    requires |ReadGeometry(file, size, zlib).value.slots| <= p
    ensures ReadGeometry(file[p := v], size, zlib) == ReadGeometry(file, size, zlib)
  {
    hide U32;
    var t, n := file[p := v], |ReadGeometry(file, size, zlib).value.slots|;
    assert t[0..HEADER] == file[0..HEADER];
    assert t[0..n] == file[0..n];
  }

  lemma {:induction false} EntryDetects(file: bytes, size: nat, pages: nat, k: nat, e: Entry, p: nat, v: byte)
    requires 0 < pages && SLOT * (k + 1) <= PAGE * pages <= |file| && size % BLK == 0
    requires e.Stored? && HoldsEntry(file, size, true, pages, k, e)
    requires BLK * e.blkoff <= p < BLK * (e.blkoff + e.blkcnt) && p < |file| && v != file[p]
    ensures PAGE * pages <= p && ReadSlot(file[p := v], GeometryOf(file, size, true, pages), k) == Bad
  {
    hide HoldsEntry, ReadSlot;
    EntryFieldsRead(file, size, true, pages, k, e);
    HeldEntryReads(file, size, true, pages, k, e);
    hide U32;
    SlotDetects(file, GeometryOf(file, size, true, pages), k, p, v);
  }

  lemma {:induction false} BadSlotRuins(file: bytes, size: nat, g: Geometry, k: nat, p: nat, v: byte)
    requires ReadGeometry(file, size, true) == Some(g) && |g.slots| <= p < |file|
    requires HEADER_SLOTS <= k < g.count && ReadSlot(file[p := v], g, k) == Bad
    ensures Read(file[p := v], size, true).end == Corrupt
  {
    hide ReadGeometry, ReadSlots, ReadSlot;
    GeometryStays(file, size, true, p, v);
    BadSlotFails(file[p := v], g, HEADER_SLOTS, k);
  }

  /** Corruption is detected: in an image with checksums on, changing any single byte of the blocks of any stored
      entry, be it head, data, padding or trailer, fails the read. */
  lemma {:induction false} OneByteIsDetected(file: bytes, size: nat, image: Image, i: nat, p: nat, v: byte)
    requires IsImage(file, size, true, image) && i < |image.entries| && InBlocks(image.entries[i], p)
    requires p < |file| && v != file[p]
    ensures Read(file[p := v], size, true).end == Corrupt
  {
    hide U32, Put32, ReadGeometry, ReadSlots, ReadSlot, HoldsFrom, HoldsEntry, HeaderBytes;
    var pages, k := image.pages, HEADER_SLOTS + i;
    var g := GeometryOf(file, size, true, pages);
    HeaderReads(file, size, true, pages, image.generation);
    HeldCount(file, size, true, pages, HEADER_SLOTS, image.entries);
    HeldEntry(file, size, true, pages, HEADER_SLOTS, image.entries, i);
    EntryDetects(file, size, pages, k, image.entries[i], p, v);
    BadSlotRuins(file, size, g, k, p, v);
  }
}
