/** The reader of ndb rpm databases: a slot table, and checked blobs in 16-byte blocks. */
module Ndb {
  import opened Bytes
  import opened Options
  import opened BlobRun
  import Adler32

  const PAGE: nat := 4096
  const SLOT: nat := 16
  const BLK: nat := 16
  const HEADER: nat := 32
  const BLOBHEAD: nat := 16
  const BLOBTAIL: nat := 12
  const PAGE_BLKS: nat := 256         // PAGE / BLK
  const PAGE_SLOTS: nat := 256        // PAGE / SLOT
  const HEADER_SLOTS: nat := 2        // HEADER / SLOT
  const MAX_SLOT_PAGES: nat := 0xFF_FFFF  // 0xFFFFFFFF / PAGE_BLKS

  const DB_MAGIC: bytes := [0x52, 0x70, 0x6D, 0x50]    // "RpmP"
  const SLOT_MAGIC: bytes := [0x53, 0x6C, 0x6F, 0x74]  // "Slot"
  const BLOB_START: bytes := [0x42, 0x6C, 0x62, 0x53]  // "BlbS"
  const BLOB_END: bytes := [0x42, 0x6C, 0x62, 0x45]    // "BlbE"

  function Ceiling(n: nat, d: nat): nat
    requires d > 0
  {
    (n + d - 1) / d
  }

  // Blocks a blob of `len` bytes takes, with its head and trailer.
  function BlocksFor(len: nat): nat {
    Ceiling(BLOBHEAD + len + BLOBTAIL, BLK)
  }

  // ---- The reader ----

  // `slots` is the slot table, `count` slots long with those the file header takes up; blobs lie from block
  // minBlk up to block fileBlks.  `zlib` is whether checksums can be verified.
  datatype Geometry = Geometry(zlib: bool, slots: bytes, count: nat, minBlk: nat, fileBlks: nat)

  ghost predicate Fits(g: Geometry) {
    |g.slots| == SLOT * g.count && g.count >= HEADER_SLOTS
  }

  function ReadGeometry(file: bytes, size: nat, zlib: bool): (r: Option<Geometry>)
    ensures r.Some? ==> Fits(r.value)
  {
    match Pread(file, HEADER, 0)
    case None => None
    case Some(head) =>
      var pages := U32(Little, head, 12);
      if head[0..4] != DB_MAGIC || U32(Little, head, 4) != 0 then None
      else if size % BLK != 0 || !(0 < pages <= MAX_SLOT_PAGES) then None
      else if pages * PAGE > size then None
      else match Pread(file, pages * PAGE, 0)
        case None => None
        case Some(slots) => Some(Geometry(zlib, slots, pages * PAGE_SLOTS, pages * PAGE_BLKS, size / BLK))
  }

  datatype SlotRead = Free | Blob(blob: bytes) | Bad

  // The blob of package `index` in its block region.
  function ReadRegion(zlib: bool, region: bytes, index: nat, blkcnt: nat): (r: SlotRead)
    requires |region| == blkcnt * BLK
    ensures r != Free
  {
    if |region| < BLOBHEAD then Bad
    else
      var len := U32(Little, region, 12);
      if region[0..4] != BLOB_START || U32(Little, region, 4) != index || blkcnt != BlocksFor(len) then Bad
      else
        var tail := |region| - BLOBTAIL;
        if region[tail + 8..] != BLOB_END || U32(Little, region, tail + 4) != len then Bad
        else if zlib && Adler32.Checksum(region[..tail]) != U32(Little, region, tail) then Bad
        else Blob(region[BLOBHEAD..BLOBHEAD + len])
  }

  // Slot k of the table.
  function ReadSlot(file: bytes, g: Geometry, k: nat): SlotRead
    requires SLOT * (k + 1) <= |g.slots|
  {
    var off := SLOT * k;
    if g.slots[off..off + 4] != SLOT_MAGIC then Bad
    else
      var index, blkoff, blkcnt :=
        U32(Little, g.slots, off + 4), U32(Little, g.slots, off + 8), U32(Little, g.slots, off + 12);
      if blkoff == 0 then Free
      else if index == 0 || blkoff < g.minBlk || blkoff + blkcnt > g.fileBlks then Bad
      else match Pread(file, blkcnt * BLK, blkoff * BLK)
        case None => Bad
        case Some(region) => ReadRegion(g.zlib, region, index, blkcnt)
  }

  // What the slots from slot k on yield.
  function ReadSlots(file: bytes, g: Geometry, k: nat): Run
    requires k <= g.count && Fits(g)
    decreases g.count - k
  {
    if k == g.count then Run([], Complete)
    else match ReadSlot(file, g, k)
      case Bad => Run([], Corrupt)
      case Free => ReadSlots(file, g, k + 1)
      case Blob(blob) => Yield([blob], ReadSlots(file, g, k + 1))
  }

  function Read(file: bytes, size: nat, zlib: bool): Run {
    match ReadGeometry(file, size, zlib)
    case None => Run([], Corrupt)
    case Some(g) => ReadSlots(file, g, HEADER_SLOTS)
  }

  /** The generator's loop over the slot table. */
  method IterNdbBlobs(file: bytes, size: nat, zlib: bool) returns (run: Run)
    ensures run == Read(file, size, zlib)
  {
    hide U32, ReadRegion, ReadSlot;
    var head := Pread(file, HEADER, 0);
    if head == None {
      return Run([], Corrupt);
    }
    var pages := U32(Little, head.value, 12);
    if head.value[0..4] != DB_MAGIC || U32(Little, head.value, 4) != 0 {
      return Run([], Corrupt);
    }
    if size % BLK != 0 || !(0 < pages <= MAX_SLOT_PAGES) {
      return Run([], Corrupt);
    }
    if pages * PAGE > size {
      return Run([], Corrupt);
    }
    var slots := Pread(file, pages * PAGE, 0);
    if slots == None {
      return Run([], Corrupt);
    }
    var g := Geometry(zlib, slots.value, pages * PAGE_SLOTS, pages * PAGE_BLKS, size / BLK);
    run := IterSlots(file, g);
  }

  method IterSlots(file: bytes, g: Geometry) returns (run: Run)
    requires Fits(g)
    ensures run == ReadSlots(file, g, HEADER_SLOTS)
  {
    hide ReadSlot;
    var out: seq<bytes> := [];
    var off, k := HEADER, HEADER_SLOTS;
    ghost var whole := ReadSlots(file, g, HEADER_SLOTS);
    while off < |g.slots|
      invariant k <= g.count && off == SLOT * k
      invariant whole == Yield(out, ReadSlots(file, g, k))
      decreases |g.slots| - off
    {
      var slot := ReadSlot(file, g, k);
      ghost var before := out;
      if slot.Bad? {
        assert out + [] == out;
        return Run(out, Corrupt);
      }
      if slot.Blob? {
        out := out + [slot.blob];
        YieldTwice(before, [slot.blob], ReadSlots(file, g, k + 1));
      }
      off, k := off + SLOT, k + 1;
    }
    assert out + [] == out;
    run := Run(out, Complete);
  }
}
