/** The layout of a Berkeley DB hash database, and that the reader accepts exactly such files. */
module BerkeleyDbLayout {
  import opened Bytes
  import opened Options
  import opened BlobRun
  import opened BerkeleyDb
  import opened BerkeleyDbImage

  // One overflow page, the part of an item it carries, and the page it links to.
  datatype Chunk = Chunk(pgno: nat, next: nat, data: bytes)

  // What a hash page stores: bytes in place, bytes on an overflow chain, or bytes nobody decodes.
  datatype Cell =
    | InPlace(data: bytes)
    | OffPage(filler: bytes, chunks: seq<Chunk>)
    | Opaque(raw: bytes)

  datatype Pair = Pair(key: Cell, value: Cell)

  // A hash page; `odd` is whether its index has one more entry than the pairs take.
  datatype Leaf = Leaf(pgno: nat, kind: byte, next: nat, odd: bool, pairs: seq<Pair>)

  datatype Database = Database(version: nat, g: Geometry, chains: seq<seq<Leaf>>)

  function Concat(cs: seq<Chunk>): bytes {
    if cs == [] then [] else cs[0].data + Concat(cs[1..])
  }

  function PageNos(cs: seq<Chunk>): seq<nat> {
    if cs == [] then [] else [cs[0].pgno] + PageNos(cs[1..])
  }

  function Payload(c: Cell): bytes {
    match c
    case InPlace(data) => data
    case OffPage(_, chunks) => Concat(chunks)
    case Opaque(_) => []
  }

  // ---- Layout ----

  ghost predicate Field16(file: bytes, at: nat, o: Order, n: nat) {
    n < 0x10000 && Lies(file, at, Put16(o, n))
  }

  ghost predicate Field32(file: bytes, at: nat, o: Order, n: nat) {
    n < TWO_32 && Lies(file, at, Put32(o, n))
  }

  // From 2^9 to 2^16.
  ghost predicate IsPowerOfTwo(n: nat) {
    exists k | 9 <= k <= 16 :: n == Pow2(k)
  }

  // The meta page: magic, version, page size, last page, last bucket and the 32 spares.
  ghost predicate IsMeta(file: bytes, size: nat, version: nat, g: Geometry) {
    && 512 <= |file|
    && Field32(file, 12, g.order, 0x0006_1561)
    && Field32(file, 16, g.order, version) && 8 <= version <= 10
    && Field32(file, 20, g.order, g.pageSize) && IsPowerOfTwo(g.pageSize)
    && Field32(file, 32, g.order, g.lastPage) && (g.lastPage + 1) * g.pageSize <= size
    && Field32(file, 72, g.order, g.maxBucket) && g.maxBucket <= g.lastPage
    && |g.spares| == 32 && forall i | 0 <= i < 32 :: Field32(file, 96 + 4 * i, g.order, g.spares[i])
  }

  // Where page `pgno` starts.
  function Base(g: Geometry, pgno: nat): nat {
    pgno * g.pageSize
  }

  // Page `pgno` lies whole in the file and carries its own number, the next page's and its type.
  ghost predicate HoldsPage(file: bytes, g: Geometry, pgno: nat, next: nat, kind: byte) {
    && 0 < pgno <= g.lastPage && Base(g, pgno) + g.pageSize <= |file|
    && Field32(file, Base(g, pgno) + 8, g.order, pgno)
    && Field32(file, Base(g, pgno) + 16, g.order, next)
    && Lies(file, Base(g, pgno) + 25, [kind])
  }

  // An overflow page (type 7) with its length and its data.
  ghost predicate HoldsChunk(file: bytes, g: Geometry, c: Chunk) {
    && HoldsPage(file, g, c.pgno, c.next, 7)
    && c.data != [] && 26 + |c.data| <= g.pageSize
    && Field16(file, Base(g, c.pgno) + 22, g.order, |c.data|)
    && Lies(file, Base(g, c.pgno) + 26, c.data)
  }

  // The chunks lie on the overflow pages linked from page `pgno` on.
  ghost predicate HoldsChunks(file: bytes, g: Geometry, pgno: nat, cs: seq<Chunk>)
    decreases |cs|
  {
    cs == [] ||
    (cs[0].pgno == pgno && HoldsChunk(file, g, cs[0]) && HoldsChunks(file, g, cs[0].next, cs[1..]))
  }

  predicate Fits(c: Cell) {
    match c
    case InPlace(_) => true
    case OffPage(filler, chunks) =>
      |filler| == 3 && chunks != [] && |Concat(chunks)| < TWO_32 && chunks[0].pgno < TWO_32
    case Opaque(raw) => raw != []
  }

  // Type 1 is an item in place; type 3 gives the first overflow page and the length.
  function CellBytes(o: Order, c: Cell): (s: bytes)
    requires Fits(c)
    ensures s != []
  {
    match c
    case InPlace(data) => [1] + data
    case OffPage(filler, chunks) => [3] + filler + Put32(o, chunks[0].pgno) + Put32(o, |Concat(chunks)|)
    case Opaque(raw) => raw
  }

  ghost predicate HoldsCell(file: bytes, g: Geometry, c: Cell) {
    && Fits(c)
    && (c.OffPage? ==> HoldsChunks(file, g, c.chunks[0].pgno, c.chunks) && Distinct(PageNos(c.chunks)))
  }

  // A header number: four bytes that are not all 0.
  predicate IsHeaderNumber(key: bytes) {
    |key| == 4 && key != [0, 0, 0, 0]
  }

  // The key can be decoded, and so can the value if the key is a header number.
  ghost predicate HoldsPair(file: bytes, g: Geometry, p: Pair) {
    && HoldsCell(file, g, p.key) && !p.key.Opaque?
    && HoldsCell(file, g, p.value) && (IsHeaderNumber(Payload(p.key)) ==> !p.value.Opaque?)
  }

  // From pair i on, keys and values tile the page at `base` downwards from `end`, each where its index entry says.
  ghost predicate HoldsPairs(file: bytes, g: Geometry, base: nat, i: nat, end: nat, ps: seq<Pair>)
    decreases |ps|
  {
    ps == [] ||
    (&& HoldsPair(file, g, ps[0])
     && var key, value := CellBytes(g.order, ps[0].key), CellBytes(g.order, ps[0].value);
     && var koff, voff := end - |key|, end - |key| - |value|;
     && voff >= 0
     && Field16(file, base + 26 + 4 * i, g.order, koff) && Field16(file, base + 26 + 4 * i + 2, g.order, voff)
     && Lies(file, base + voff, value) && Lies(file, base + koff, key)
     && HoldsPairs(file, g, base, i + 1, voff, ps[1..]))
  }

  // A hash page (type 2 or 13) with the length of its index.
  ghost predicate HoldsLeaf(file: bytes, g: Geometry, leaf: Leaf) {
    var n := 2 * |leaf.pairs| + if leaf.odd then 1 else 0;
    && HoldsPage(file, g, leaf.pgno, leaf.next, leaf.kind) && (leaf.kind == 2 || leaf.kind == 13)
    && 26 + 2 * n <= g.pageSize && Field16(file, Base(g, leaf.pgno) + 20, g.order, n)
    && HoldsPairs(file, g, Base(g, leaf.pgno), 0, g.pageSize, leaf.pairs)
  }

  // The chain that starts at page `pgno`; 0 ends it.
  ghost predicate HoldsChain(file: bytes, g: Geometry, pgno: nat, chain: seq<Leaf>)
    decreases |chain|
  {
    if chain == [] then pgno == 0
    else chain[0].pgno == pgno && HoldsLeaf(file, g, chain[0]) && HoldsChain(file, g, chain[0].next, chain[1..])
  }

  ghost predicate HoldsBuckets(file: bytes, g: Geometry, bucket: nat, chains: seq<seq<Leaf>>)
    decreases |chains|
  {
    chains == [] ||
    (&& BitLength(bucket) < |g.spares|
     && HoldsChain(file, g, bucket + g.spares[BitLength(bucket)], chains[0])
     && HoldsBuckets(file, g, bucket + 1, chains[1..]))
  }

  function LeafNos(chain: seq<Leaf>): seq<nat> {
    if chain == [] then [] else [chain[0].pgno] + LeafNos(chain[1..])
  }

  function AllLeafNos(chains: seq<seq<Leaf>>): seq<nat> {
    if chains == [] then [] else LeafNos(chains[0]) + AllLeafNos(chains[1..])
  }

  /** The whole database: the meta page and one chain of hash pages per bucket, no page in two places. */
  ghost predicate IsDatabase(file: bytes, size: nat, db: Database) {
    && IsMeta(file, size, db.version, db.g) && |db.chains| == db.g.maxBucket + 1
    && HoldsBuckets(file, db.g, 0, db.chains) && Distinct(AllLeafNos(db.chains))
  }

  // ---- Content ----

  function PairValues(ps: seq<Pair>): seq<bytes> {
    if ps == [] then []
    else (if IsHeaderNumber(Payload(ps[0].key)) then [Payload(ps[0].value)] else []) + PairValues(ps[1..])
  }

  function ChainValues(chain: seq<Leaf>): seq<bytes> {
    if chain == [] then [] else PairValues(chain[0].pairs) + ChainValues(chain[1..])
  }

  // The values whose key is a header number, in bucket, chain and slot order.
  function Values(chains: seq<seq<Leaf>>): seq<bytes> {
    if chains == [] then [] else ChainValues(chains[0]) + Values(chains[1..])
  }

  // ---- Fields, pages and the reader's view of them ----

  lemma {:induction false} PageSizes(n: nat)
    ensures IsPageSize(n) <==> IsPowerOfTwo(n)
  {
    assert Pow2(9) == 512 && Pow2(10) == 1024;
    assert Pow2(11) == 2048 && Pow2(12) == 4096;
    assert Pow2(13) == 8192 && Pow2(14) == 16384;
    assert Pow2(15) == 32768 && Pow2(16) == 65536;
    if IsPowerOfTwo(n) {
      var k :| 9 <= k <= 16 && n == Pow2(k);
      assert k == 9 || k == 10 || k == 11 || k == 12 || k == 13 || k == 14 || k == 15 || k == 16;
    }
  }

  lemma {:induction false} LiesInPage(file: bytes, base: nat, len: nat, at: nat, s: bytes)
    requires base + len <= |file| && at + |s| <= len
    ensures Lies(file, base + at, s) <==> file[base..base + len][at..at + |s|] == s
  {
    SliceOfSlice(file, base, base + len, at, at + |s|);
  }

  lemma {:induction false} Field32Reads(file: bytes, base: nat, len: nat, at: nat, o: Order, n: nat)
    requires base + len <= |file| && at + 4 <= len
    ensures Field32(file, base + at, o, n) <==> U32(o, file[base..base + len], at) == n
  {
    hide U32, Put32;
    var pg := file[base..base + len];
    U32Slice(o, pg, at);
    Put32OfU32(o, pg, at);
    LiesInPage(file, base, len, at, pg[at..at + 4]);
    if n < TWO_32 {
      LiesInPage(file, base, len, at, Put32(o, n));
    }
  }

  lemma {:induction false} Field16Reads(file: bytes, base: nat, len: nat, at: nat, o: Order, n: nat)
    requires base + len <= |file| && at + 2 <= len
    ensures Field16(file, base + at, o, n) <==> U16(o, file[base..base + len], at) == n
  {
    hide U16, Put16;
    var pg := file[base..base + len];
    U16Slice(o, pg, at);
    Put16OfU16(o, pg, at);
    LiesInPage(file, base, len, at, pg[at..at + 2]);
    if n < 0x10000 {
      LiesInPage(file, base, len, at, Put16(o, n));
    }
  }

  // The reader's page.
  lemma {:induction false} PageReads(file: bytes, g: Geometry, pgno: nat, next: nat, kind: byte)
    requires IsPageSize(g.pageSize)
    ensures HoldsPage(file, g, pgno, next, kind) <==>
            && PageAt(file, g, pgno).Some?
            && var pg := PageAt(file, g, pgno).value; U32(g.order, pg, 16) == next && pg[25] == kind
    ensures PageAt(file, g, pgno).Some? ==>
              var base := Base(g, pgno);
              base + g.pageSize <= |file| && PageAt(file, g, pgno).value == file[base..base + g.pageSize]
  {
    hide U32, Field32, Lies;
    assert g.pageSize >= 512;
    hide IsPageSize;
    var base := Base(g, pgno);
    if base + g.pageSize <= |file| {
      Field32Reads(file, base, g.pageSize, 8, g.order, pgno);
      Field32Reads(file, base, g.pageSize, 16, g.order, next);
      LiesInPage(file, base, g.pageSize, 25, [kind]);
      var pg := file[base..base + g.pageSize];
      assert pg[25..26] == [pg[25]];
    }
  }

  lemma {:induction false} MagicIs(meta: bytes, o: Order)
    requires |meta| == META
    ensures MagicOrder(meta) == Some(o) <==> U32(o, meta, 12) == 0x0006_1561
  {
    assert Sum4(0x61, 0x15, 6, 0) == 0x0006_1561;
    hide Sum4;
    if U32(Little, meta, 12) == 0x0006_1561 && U32(Big, meta, 12) == 0x0006_1561 {
      Digits(meta[12], meta[13], meta[14], meta[15], 0x61, 0x15, 0x06, 0x00);
      Digits(meta[15], meta[14], meta[13], meta[12], 0x61, 0x15, 0x06, 0x00);
      assert false;
    }
  }

  lemma {:induction false} MetaReads(file: bytes, size: nat, version: nat, g: Geometry)
    requires IsMeta(file, size, version, g)
    ensures ReadGeometry(file, size) == Some(g)
  {
    hide U32, IsPageSize, IsPowerOfTwo, MagicOrder, Field32;
    PageSizes(g.pageSize);
    var meta := file[0..META];
    MetaFields(file, g);
    Field32Reads(file, 0, META, 16, g.order, version);
    MagicIs(meta, g.order);
    assert seq(SPARES, i requires 0 <= i < SPARES => U32(g.order, meta, 96 + 4 * i)) == g.spares;
  }

  // The fields of the meta page but its version.
  lemma {:induction false} MetaFields(file: bytes, g: Geometry)
    requires META <= |file| && |g.spares| == SPARES
    ensures var meta, o := file[0..META], g.order;
            && (Field32(file, 12, o, 0x0006_1561) <==> U32(o, meta, 12) == 0x0006_1561)
            && (Field32(file, 20, o, g.pageSize) <==> U32(o, meta, 20) == g.pageSize)
            && (Field32(file, 32, o, g.lastPage) <==> U32(o, meta, 32) == g.lastPage)
            && (Field32(file, 72, o, g.maxBucket) <==> U32(o, meta, 72) == g.maxBucket)
            && forall i | 0 <= i < SPARES ::
                 Field32(file, 96 + 4 * i, o, g.spares[i]) <==> U32(o, meta, 96 + 4 * i) == g.spares[i]
  {
    hide U32, Field32;
    Field32Reads(file, 0, META, 12, g.order, 0x0006_1561);
    Field32Reads(file, 0, META, 20, g.order, g.pageSize);
    Field32Reads(file, 0, META, 32, g.order, g.lastPage);
    Field32Reads(file, 0, META, 72, g.order, g.maxBucket);
    forall i | 0 <= i < SPARES
      ensures Field32(file, 96 + 4 * i, g.order, g.spares[i])
              <==> U32(g.order, file[0..META], 96 + 4 * i) == g.spares[i]
    {
      Field32Reads(file, 0, META, 96 + 4 * i, g.order, g.spares[i]);
    }
  }

  lemma {:induction false} GeometryFields(file: bytes, size: nat)
    requires ReadGeometry(file, size).Some?
    ensures META <= |file|
    ensures var g, meta := ReadGeometry(file, size).value, file[0..META];
            && MagicOrder(meta) == Some(g.order) && 8 <= U32(g.order, meta, 16) <= 10
            && U32(g.order, meta, 20) == g.pageSize && IsPageSize(g.pageSize)
            && U32(g.order, meta, 32) == g.lastPage && (g.lastPage + 1) * g.pageSize <= size
            && U32(g.order, meta, 72) == g.maxBucket && g.maxBucket <= g.lastPage && |g.spares| == SPARES
            && forall i | 0 <= i < SPARES :: U32(g.order, meta, 96 + 4 * i) == g.spares[i]
  {
    hide U32, MagicOrder, IsPageSize;
  }

  lemma {:induction false} ReadIsMeta(file: bytes, size: nat) returns (version: nat)
    requires ReadGeometry(file, size).Some?
    ensures IsMeta(file, size, version, ReadGeometry(file, size).value)
  {
    hide ReadGeometry, U32, IsPageSize, IsPowerOfTwo, MagicOrder, Field32;
    GeometryFields(file, size);
    var g, meta := ReadGeometry(file, size).value, file[0..META];
    version := U32(g.order, meta, 16);
    PageSizes(g.pageSize);
    MagicIs(meta, g.order);
    MetaFields(file, g);
    Field32Reads(file, 0, META, 16, g.order, version);
  }

  // Four bytes are a number other than 0 if and only if they are not all 0.
  lemma {:induction false} HeaderNumbers(g: Geometry, key: bytes)
    ensures IsPackageKey(g, key) <==> IsHeaderNumber(key)
  {
    if |key| == 4 {
      assert key == [key[0], key[1], key[2], key[3]];
    }
  }

  // ---- Every database reads back ----

  lemma {:induction false} ChunkReads(file: bytes, g: Geometry, c: Chunk, need: nat)
    requires IsPageSize(g.pageSize) && HoldsChunk(file, g, c) && |c.data| <= need
    ensures OverflowPage(file, g, c.pgno, need) == Some((c.data, c.next))
  {
    hide U32, U16, PageAt, HoldsPage, Lies;
    var base := Base(g, c.pgno);
    PageReads(file, g, c.pgno, c.next, 7);
    Field16Reads(file, base, g.pageSize, 22, g.order, |c.data|);
    LiesInPage(file, base, g.pageSize, 26, c.data);
  }

  lemma {:induction false} ChunksRead(file: bytes, g: Geometry, pgno: nat, cs: seq<Chunk>, seen: set<nat>)
    requires IsPageSize(g.pageSize) && HoldsChunks(file, g, pgno, cs) && Fresh(seen, PageNos(cs))
    ensures Overflow(file, g, pgno, |Concat(cs)|, seen) == Some(Concat(cs))
    decreases |cs|
  {
    hide Unseen, OverflowPage, HoldsChunk;
    if cs != [] {
      assert PageNos(cs)[1..] == PageNos(cs[1..]);
      ChunksRead(file, g, cs[0].next, cs[1..], seen + {pgno});
      ChunkReads(file, g, cs[0], |Concat(cs)|);
    }
  }

  lemma {:induction false} OffPageFields(o: Order, pg: bytes, off: nat, filler: bytes, pgno: nat, total: nat)
    requires off + OFFPAGE_ITEM <= |pg| && |filler| == 3 && pgno < TWO_32 && total < TWO_32
    requires pg[off..off + OFFPAGE_ITEM] == [3] + filler + Put32(o, pgno) + Put32(o, total)
    ensures pg[off] == 3 && U32(o, pg, off + 4) == pgno && U32(o, pg, off + 8) == total
  {
    hide U32, Put32;
    var s := pg[off..off + OFFPAGE_ITEM];
    assert s[0] == pg[off];
    SliceOfSlice(pg, off, off + OFFPAGE_ITEM, 4, 8);
    SliceOfSlice(pg, off, off + OFFPAGE_ITEM, 8, 12);
    assert s[4..8] == Put32(o, pgno);
    assert s[8..12] == Put32(o, total);
    U32Slice(o, pg, off + 4);
    U32Slice(o, pg, off + 8);
  }

  lemma {:induction false} CellReads(file: bytes, g: Geometry, pg: bytes, off: nat, end: nat, c: Cell)
    requires IsPageSize(g.pageSize) && |pg| == g.pageSize && off < end <= |pg|
    requires HoldsCell(file, g, c) && !c.Opaque? && pg[off..end] == CellBytes(g.order, c)
    ensures Item(file, g, pg, off, end) == Some(Payload(c))
  {
    hide U32, Put32, HoldsChunks, Overflow, Fresh;
    match c
    case InPlace(data) =>
      assert pg[off..end][0] == pg[off];
      assert pg[off + 1..end] == pg[off..end][1..];
    case OffPage(filler, chunks) =>
      OffPageFields(g.order, pg, off, filler, chunks[0].pgno, |Concat(chunks)|);
      FirstChunk(file, g, chunks);
      FreshMeansDistinct({}, PageNos(chunks));
      ChunksRead(file, g, chunks[0].pgno, chunks, {});
  }

  lemma {:induction false} FirstChunk(file: bytes, g: Geometry, chunks: seq<Chunk>)
    requires chunks != [] && HoldsChunks(file, g, chunks[0].pgno, chunks)
    ensures |Concat(chunks)| > 0
  {
  }

  lemma {:induction false} CellFits(file: bytes, g: Geometry, c: Cell)
    requires HoldsCell(file, g, c)
    ensures Fits(c)
  {
  }

  // The first pair lies where its index entries say.
  lemma {:induction false} PairLies(file: bytes, g: Geometry, base: nat, i: nat, end: nat, ps: seq<Pair>)
    requires base + g.pageSize <= |file| && 26 + 4 * (i + |ps|) <= g.pageSize && end <= g.pageSize
    requires HoldsPairs(file, g, base, i, end, ps) && ps != []
    ensures HoldsPair(file, g, ps[0])
    ensures var pg := file[base..base + g.pageSize];
            var koff, voff := Offset(g, pg, 2 * i), Offset(g, pg, 2 * i + 1);
            && voff < koff < end && HoldsPairs(file, g, base, i + 1, voff, ps[1..])
            && pg[koff..end] == CellBytes(g.order, ps[0].key) && pg[voff..koff] == CellBytes(g.order, ps[0].value)
  {
    hide U16, HoldsCell, CellBytes, Lies, Fits;
    assert HoldsCell(file, g, ps[0].key) && HoldsCell(file, g, ps[0].value);
    CellFits(file, g, ps[0].key);
    CellFits(file, g, ps[0].value);
    var key, value := CellBytes(g.order, ps[0].key), CellBytes(g.order, ps[0].value);
    var koff, voff := end - |key|, end - |key| - |value|;
    Field16Reads(file, base, g.pageSize, 26 + 4 * i, g.order, koff);
    Field16Reads(file, base, g.pageSize, 26 + 4 * i + 2, g.order, voff);
    LiesInPage(file, base, g.pageSize, voff, value);
    LiesInPage(file, base, g.pageSize, koff, key);
  }

  lemma {:induction false} PairsRead(file: bytes, g: Geometry, base: nat, i: nat, end: nat, ps: seq<Pair>)
    requires IsPageSize(g.pageSize) && base + g.pageSize <= |file|
    requires 26 + 4 * (i + |ps|) <= g.pageSize && end <= g.pageSize && HoldsPairs(file, g, base, i, end, ps)
    ensures var pg := file[base..base + g.pageSize];
            Pairs(file, g, pg, i + |ps|, i, end) == Run(PairValues(ps), Complete)
    decreases |ps|
  {
    hide U16, IsPackageKey, Item, HoldsCell, CellBytes, Payload, IsHeaderNumber, HoldsPairs, IsPageSize;
    if ps != [] {
      var pg := file[base..base + g.pageSize];
      var koff, voff := Offset(g, pg, 2 * i), Offset(g, pg, 2 * i + 1);
      PairLies(file, g, base, i, end, ps);
      CellReads(file, g, pg, koff, end, ps[0].key);
      HeaderNumbers(g, Payload(ps[0].key));
      if IsHeaderNumber(Payload(ps[0].key)) {
        CellReads(file, g, pg, voff, koff, ps[0].value);
      }
      PairsRead(file, g, base, i + 1, voff, ps[1..]);
    }
  }

  lemma {:induction false} LeafReads(file: bytes, g: Geometry, leaf: Leaf)
    requires IsPageSize(g.pageSize) && HoldsLeaf(file, g, leaf)
    ensures HashPage(file, g, leaf.pgno).Some?
    ensures var pg := HashPage(file, g, leaf.pgno).value;
            && U32(g.order, pg, 16) == leaf.next && PageValues(file, g, pg) == Run(PairValues(leaf.pairs), Complete)
  {
    hide U32, U16, PageAt, HoldsPage, HoldsPairs, Pairs, PairValues, IsPageSize;
    var base := Base(g, leaf.pgno);
    PageReads(file, g, leaf.pgno, leaf.next, leaf.kind);
    Field16Reads(file, base, g.pageSize, 20, g.order, 2 * |leaf.pairs| + if leaf.odd then 1 else 0);
    PairsRead(file, g, base, 0, g.pageSize, leaf.pairs);
  }

  lemma {:induction false} ChainReads(file: bytes, g: Geometry, pgno: nat, chain: seq<Leaf>, visited: set<nat>)
    requires IsPageSize(g.pageSize) && HoldsChain(file, g, pgno, chain) && Fresh(visited, LeafNos(chain))
    ensures Chain(file, g, pgno, visited) ==
            ChainRun(Run(ChainValues(chain), Complete), Added(visited, LeafNos(chain)))
    decreases |chain|
  {
    hide U32, Unseen, HashPage, PageValues, HoldsLeaf, PairValues;
    if chain != [] {
      assert LeafNos(chain)[1..] == LeafNos(chain[1..]);
      LeafReads(file, g, chain[0]);
      ChainReads(file, g, chain[0].next, chain[1..], visited + {pgno});
    }
  }

  lemma {:induction false} NoBucket(file: bytes, g: Geometry, visited: set<nat>)
    requires Sound(g)
    ensures Buckets(file, g, g.maxBucket + 1, visited) == Run([], Complete)
  {
  }

  // The first bucket's chain, and then those of the others.
  lemma {:induction false} BucketUnfolds(file: bytes, g: Geometry, bucket: nat, visited: set<nat>, chain: ChainRun)
    requires Sound(g) && bucket <= g.maxBucket && BitLength(bucket) < SPARES
    requires chain == Chain(file, g, bucket + g.spares[BitLength(bucket)], visited) && chain.run.end == Complete
    ensures Buckets(file, g, bucket, visited) == Yield(chain.run.blobs, Buckets(file, g, bucket + 1, chain.visited))
  {
    hide Chain, BitLength, Yield;
  }

  lemma {:induction false} FirstBucket(file: bytes, g: Geometry, bucket: nat, chains: seq<seq<Leaf>>)
    requires Sound(g) && HoldsBuckets(file, g, bucket, chains)
    ensures chains == [] ==> Values(chains) == []
    ensures chains != [] ==>
              && BitLength(bucket) < SPARES
              && HoldsChain(file, g, bucket + g.spares[BitLength(bucket)], chains[0])
              && HoldsBuckets(file, g, bucket + 1, chains[1..])
              && AllLeafNos(chains) == LeafNos(chains[0]) + AllLeafNos(chains[1..])
              && Values(chains) == ChainValues(chains[0]) + Values(chains[1..])
  {
    hide HoldsChain, BitLength, IsPageSize, ChainValues, LeafNos;
  }

  lemma {:induction false} BucketsRead(file: bytes, g: Geometry, bucket: nat, chains: seq<seq<Leaf>>, visited: set<nat>)
    requires Sound(g) && bucket + |chains| == g.maxBucket + 1
    requires HoldsBuckets(file, g, bucket, chains) && Fresh(visited, AllLeafNos(chains))
    ensures Buckets(file, g, bucket, visited) == Run(Values(chains), Complete)
    decreases |chains|
  {
    hide Chain, HoldsChain, HoldsBuckets, BitLength, Fresh, Added, LeafNos, AllLeafNos, Buckets, IsPageSize, Values;
    FirstBucket(file, g, bucket, chains);
    if chains == [] {
      NoBucket(file, g, visited);
    } else {
      var start := bucket + g.spares[BitLength(bucket)];
      var rest := Added(visited, LeafNos(chains[0]));
      FreshAppend(visited, LeafNos(chains[0]), AllLeafNos(chains[1..]));
      ChainReads(file, g, start, chains[0], visited);
      BucketsRead(file, g, bucket + 1, chains[1..], rest);
      BucketUnfolds(file, g, bucket, visited, ChainRun(Run(ChainValues(chains[0]), Complete), rest));
    }
  }

  lemma {:induction false} MetaIsSound(file: bytes, size: nat, version: nat, g: Geometry)
    requires IsMeta(file, size, version, g)
    ensures Sound(g)
  {
    hide IsPowerOfTwo, Field32;
    PageSizes(g.pageSize);
  }

  lemma {:induction false} DatabaseReads(file: bytes, size: nat, db: Database)
    requires IsDatabase(file, size, db)
    ensures Read(file, size) == Run(Values(db.chains), Complete)
  {
    hide ReadGeometry, HoldsBuckets, Buckets, Fresh, IsMeta, Sound;
    MetaReads(file, size, db.version, db.g);
    MetaIsSound(file, size, db.version, db.g);
    FreshMeansDistinct({}, AllLeafNos(db.chains));
    BucketsRead(file, db.g, 0, db.chains, {});
  }

  // ---- Whatever reads is a database ----

  lemma {:induction false} OverflowIsChunk(file: bytes, g: Geometry, pgno: nat, need: nat) returns (c: Chunk)
    requires IsPageSize(g.pageSize) && OverflowPage(file, g, pgno, need).Some?
    ensures HoldsChunk(file, g, c) && c.pgno == pgno && OverflowPage(file, g, pgno, need) == Some((c.data, c.next))
  {
    hide U32, U16, PageAt, HoldsPage, Lies, Field16, IsPageSize;
    var pg := PageAt(file, g, pgno).value;
    var base := Base(g, pgno);
    var (data, next) := OverflowPage(file, g, pgno, need).value;
    c := Chunk(pgno, next, data);
    PageReads(file, g, pgno, next, 7);
    Field16Reads(file, base, g.pageSize, 22, g.order, |data|);
    LiesInPage(file, base, g.pageSize, 26, data);
  }

  lemma {:induction false} OverflowIsChunks(file: bytes, g: Geometry, pgno: nat, need: nat, seen: set<nat>)
    returns (cs: seq<Chunk>)
    requires IsPageSize(g.pageSize) && Overflow(file, g, pgno, need, seen).Some?
    ensures HoldsChunks(file, g, pgno, cs) && Fresh(seen, PageNos(cs))
    ensures Concat(cs) == Overflow(file, g, pgno, need, seen).value && (need > 0 ==> cs != [])
    decreases |Unseen(g, seen)|
  {
    hide Unseen, OverflowPage, HoldsChunk;
    if need == 0 {
      cs := [];
    } else {
      var c := OverflowIsChunk(file, g, pgno, need);
      SeeingShrinks(g, seen, pgno);
      var rest := OverflowIsChunks(file, g, c.next, need - |c.data|, seen + {pgno});
      cs := [c] + rest;
      assert cs[1..] == rest && PageNos(cs)[1..] == PageNos(rest);
    }
  }

  lemma {:induction false} ItemIsCell(file: bytes, g: Geometry, pg: bytes, off: nat, end: nat) returns (c: Cell)
    requires IsPageSize(g.pageSize) && |pg| == g.pageSize && off < end <= |pg|
    requires Item(file, g, pg, off, end).Some?
    ensures HoldsCell(file, g, c) && !c.Opaque? && pg[off..end] == CellBytes(g.order, c)
    ensures Payload(c) == Item(file, g, pg, off, end).value
  {
    hide U32, Put32, HoldsChunks, Overflow, Fresh;
    var s := pg[off..end];
    if pg[off] == KEYDATA {
      c := InPlace(pg[off + 1..end]);
      assert s == [1] + pg[off + 1..end];
    } else {
      var pgno, total := U32(g.order, pg, off + 4), U32(g.order, pg, off + 8);
      var cs := OverflowIsChunks(file, g, pgno, total, {});
      FirstPage(file, g, pgno, cs);
      FreshMeansDistinct({}, PageNos(cs));
      Put32OfU32(g.order, pg, off + 4);
      Put32OfU32(g.order, pg, off + 8);
      c := OffPage(pg[off + 1..off + 4], cs);
      FourParts(pg, off);
    }
  }

  lemma {:induction false} FourParts(pg: bytes, off: nat)
    requires off + 12 <= |pg|
    ensures pg[off..off + 12] == [pg[off]] + pg[off + 1..off + 4] + pg[off + 4..off + 8] + pg[off + 8..off + 12]
  {
  }

  lemma {:induction false} FirstPage(file: bytes, g: Geometry, pgno: nat, cs: seq<Chunk>)
    requires cs != [] && HoldsChunks(file, g, pgno, cs)
    ensures cs[0].pgno == pgno
  {
  }

  // The cells of the pair whose index entries are at i, if the reader decodes it.
  lemma {:induction false} PairIs(file: bytes, g: Geometry, pg: bytes, koff: nat, voff: nat, end: nat) returns (p: Pair)
    requires IsPageSize(g.pageSize) && |pg| == g.pageSize && voff < koff < end <= |pg|
    requires Item(file, g, pg, koff, end).Some?
    requires IsPackageKey(g, Item(file, g, pg, koff, end).value) ==> Item(file, g, pg, voff, koff).Some?
    ensures HoldsPair(file, g, p) && Item(file, g, pg, koff, end) == Some(Payload(p.key))
    ensures pg[koff..end] == CellBytes(g.order, p.key) && pg[voff..koff] == CellBytes(g.order, p.value)
    ensures IsHeaderNumber(Payload(p.key)) ==> Item(file, g, pg, voff, koff) == Some(Payload(p.value))
  {
    hide IsPackageKey, Item, IsHeaderNumber, HoldsChunks, IsPageSize;
    var key := ItemIsCell(file, g, pg, koff, end);
    var value := Opaque(pg[voff..koff]);
    HeaderNumbers(g, Payload(key));
    if IsPackageKey(g, Payload(key)) {
      value := ItemIsCell(file, g, pg, voff, koff);
    }
    p := Pair(key, value);
  }

  // A pair put before others.
  lemma {:induction false} PairIsHeld(file: bytes, g: Geometry, base: nat, i: nat, end: nat, p: Pair, rest: seq<Pair>)
    requires base + g.pageSize <= |file| && 26 + 4 * (i + 1) <= g.pageSize && end <= g.pageSize
    requires HoldsPair(file, g, p)
    requires var pg := file[base..base + g.pageSize];
             var koff, voff := Offset(g, pg, 2 * i), Offset(g, pg, 2 * i + 1);
             && voff < koff < end && HoldsPairs(file, g, base, i + 1, voff, rest)
             && pg[koff..end] == CellBytes(g.order, p.key) && pg[voff..koff] == CellBytes(g.order, p.value)
    ensures HoldsPairs(file, g, base, i, end, [p] + rest)
  {
    hide U16, HoldsCell, CellBytes, Lies, Fits, Field16;
    CellFits(file, g, p.key);
    CellFits(file, g, p.value);
    var pg := file[base..base + g.pageSize];
    var koff, voff := Offset(g, pg, 2 * i), Offset(g, pg, 2 * i + 1);
    Field16Reads(file, base, g.pageSize, 26 + 4 * i, g.order, koff);
    Field16Reads(file, base, g.pageSize, 26 + 4 * i + 2, g.order, voff);
    LiesInPage(file, base, g.pageSize, voff, CellBytes(g.order, p.value));
    LiesInPage(file, base, g.pageSize, koff, CellBytes(g.order, p.key));
    assert ([p] + rest)[1..] == rest;
  }

  lemma {:induction false} PairsAreHeld(file: bytes, g: Geometry, base: nat, pairs: nat, i: nat, end: nat)
    returns (ps: seq<Pair>)
    requires IsPageSize(g.pageSize) && base + g.pageSize <= |file| && end <= g.pageSize
    requires PAGE_HEADER + 4 * pairs <= g.pageSize && i <= pairs
    requires Pairs(file, g, file[base..base + g.pageSize], pairs, i, end).end == Complete
    ensures |ps| == pairs - i && HoldsPairs(file, g, base, i, end, ps)
    ensures PairValues(ps) == Pairs(file, g, file[base..base + g.pageSize], pairs, i, end).blobs
    decreases pairs - i
  {
    hide U16, IsPackageKey, Item, HoldsPair, CellBytes, Payload, IsHeaderNumber, HoldsPairs, IsPageSize;
    if i == pairs {
      ps := [];
      NoPairs(file, g, base, i, end);
    } else {
      var pg := file[base..base + g.pageSize];
      var koff, voff := Offset(g, pg, 2 * i), Offset(g, pg, 2 * i + 1);
      var p := PairIs(file, g, pg, koff, voff, end);
      HeaderNumbers(g, Payload(p.key));
      var rest := PairsAreHeld(file, g, base, pairs, i + 1, voff);
      ps := [p] + rest;
      assert ps[1..] == rest;
      PairIsHeld(file, g, base, i, end, p, rest);
    }
  }

  lemma {:induction false} NoPairs(file: bytes, g: Geometry, base: nat, i: nat, end: nat)
    ensures HoldsPairs(file, g, base, i, end, [])
  {
  }

  lemma {:induction false} PageIsLeaf(file: bytes, g: Geometry, pgno: nat) returns (leaf: Leaf)
    requires IsPageSize(g.pageSize) && HashPage(file, g, pgno).Some?
    requires PageValues(file, g, HashPage(file, g, pgno).value).end == Complete
    ensures HoldsLeaf(file, g, leaf) && leaf.pgno == pgno
    ensures var pg := HashPage(file, g, pgno).value;
            leaf.next == U32(g.order, pg, 16) && PageValues(file, g, pg) == Run(PairValues(leaf.pairs), Complete)
  {
    hide U32, U16, PageAt, HoldsPage, HoldsPairs, Pairs, PairValues, Field16, IsPageSize;
    var pg := HashPage(file, g, pgno).value;
    var n, base := U16(g.order, pg, 20), Base(g, pgno);
    PageReads(file, g, pgno, U32(g.order, pg, 16), pg[25]);
    Field16Reads(file, base, g.pageSize, 20, g.order, n);
    var pairs := PairsAreHeld(file, g, base, n / 2, 0, g.pageSize);
    leaf := Leaf(pgno, pg[25], U32(g.order, pg, 16), n % 2 == 1, pairs);
  }

  lemma {:induction false} ChainIsHeld(file: bytes, g: Geometry, pgno: nat, visited: set<nat>)
    returns (chain: seq<Leaf>)
    requires IsPageSize(g.pageSize) && Chain(file, g, pgno, visited).run.end == Complete
    ensures HoldsChain(file, g, pgno, chain) && Fresh(visited, LeafNos(chain))
    ensures Chain(file, g, pgno, visited) ==
            ChainRun(Run(ChainValues(chain), Complete), Added(visited, LeafNos(chain)))
    decreases |Unseen(g, visited)|
  {
    hide U32, Unseen, HashPage, PageValues, HoldsLeaf, PairValues;
    if pgno == 0 {
      chain := [];
    } else {
      SeeingShrinks(g, visited, pgno);
      var leaf := PageIsLeaf(file, g, pgno);
      var rest := ChainIsHeld(file, g, leaf.next, visited + {pgno});
      chain := [leaf] + rest;
      assert chain[1..] == rest && LeafNos(chain)[1..] == LeafNos(rest);
    }
  }

  lemma {:induction false} BucketsAreHeld(file: bytes, g: Geometry, bucket: nat, visited: set<nat>)
    returns (chains: seq<seq<Leaf>>)
    requires Sound(g) && bucket <= g.maxBucket + 1 && Buckets(file, g, bucket, visited).end == Complete
    ensures bucket + |chains| == g.maxBucket + 1
    ensures HoldsBuckets(file, g, bucket, chains) && Fresh(visited, AllLeafNos(chains))
    ensures Values(chains) == Buckets(file, g, bucket, visited).blobs
    decreases g.maxBucket + 1 - bucket
  {
    hide Chain, HoldsChain, BitLength, Fresh, Added, LeafNos, ChainValues;
    if bucket > g.maxBucket {
      chains := [];
      FreshMeansDistinct(visited, []);
    } else {
      var start := bucket + g.spares[BitLength(bucket)];
      var chain := ChainIsHeld(file, g, start, visited);
      var rest := BucketsAreHeld(file, g, bucket + 1, Chain(file, g, start, visited).visited);
      chains := [chain] + rest;
      assert chains[1..] == rest;
      FreshAppend(visited, LeafNos(chain), AllLeafNos(rest));
    }
  }

  lemma {:induction false} ReadIsDatabase(file: bytes, size: nat) returns (db: Database)
    requires Read(file, size).end == Complete
    ensures IsDatabase(file, size, db) && Values(db.chains) == Read(file, size).blobs
  {
    hide ReadGeometry, HoldsBuckets, Buckets, Fresh, IsMeta;
    var g := ReadGeometry(file, size).value;
    var version := ReadIsMeta(file, size);
    var chains := BucketsAreHeld(file, g, 0, {});
    FreshMeansDistinct({}, AllLeafNos(chains));
    db := Database(version, g, chains);
  }

  /** Exactness: the reader reaches the end having yielded `vs` if and only if the file is laid out as a
      hash database, every bucket chain acyclic and disjoint from the others and every long item on an
      acyclic overflow chain, whose values under header numbers are `vs` in bucket, chain and slot order. */
  lemma {:induction false} ReadsExactlyDatabases(file: bytes, size: nat, vs: seq<bytes>)
    ensures Read(file, size) == Run(vs, Complete) <==>
            exists db :: IsDatabase(file, size, db) && Values(db.chains) == vs
  {
    hide IsDatabase, Read;
    forall db | IsDatabase(file, size, db) ensures Read(file, size) == Run(Values(db.chains), Complete) {
      DatabaseReads(file, size, db);
    }
    if Read(file, size) == Run(vs, Complete) {
      var db := ReadIsDatabase(file, size);
    }
  }
}
