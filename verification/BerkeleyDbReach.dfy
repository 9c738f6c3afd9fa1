/** The pages a Berkeley DB read depends on: none but those it touches, and in a database those some bucket reaches. */
module BerkeleyDbReach {
  import opened Bytes
  import opened Options
  import opened BerkeleyDb
  import opened BerkeleyDbLayout

  function ChunkPages(cs: seq<Chunk>): set<nat> {
    if cs == [] then {} else {cs[0].pgno} + ChunkPages(cs[1..])
  }

  function CellPages(c: Cell): set<nat> {
    if c.OffPage? then ChunkPages(c.chunks) else {}
  }

  function PairPages(ps: seq<Pair>): set<nat> {
    if ps == [] then {} else CellPages(ps[0].key) + CellPages(ps[0].value) + PairPages(ps[1..])
  }

  function ChainReach(chain: seq<Leaf>): set<nat> {
    if chain == [] then {} else {chain[0].pgno} + PairPages(chain[0].pairs) + ChainReach(chain[1..])
  }

  // The hash pages of the chains and the overflow pages of their items.
  function Reach(chains: seq<seq<Leaf>>): set<nat> {
    if chains == [] then {} else ChainReach(chains[0]) + Reach(chains[1..])
  }

  // The files agree on every byte of these pages.
  ghost predicate SamePages(file: bytes, other: bytes, g: Geometry, pages: set<nat>) {
    && |other| == |file|
    && forall n, i: nat | n in pages && Base(g, n) <= i < Base(g, n) + g.pageSize && i < |file| ::
         other[i] == file[i]
  }

  lemma {:induction false} SamePage(file: bytes, other: bytes, g: Geometry, pages: set<nat>, n: nat)
    requires IsPageSize(g.pageSize) && SamePages(file, other, g, pages) && n in pages
    ensures PageAt(other, g, n) == PageAt(file, g, n)
  {
    hide U32, IsPageSize;
    var start := Base(g, n);
    if start + g.pageSize <= |file| {
      assert other[start..start + g.pageSize] == file[start..start + g.pageSize];
    }
  }

  // What lies inside such a page lies there in the other file.
  lemma {:induction false} LiesSame(file: bytes, other: bytes, g: Geometry, pages: set<nat>, n: nat, at: nat, s: bytes)
    requires SamePages(file, other, g, pages) && n in pages && at + |s| <= g.pageSize
    ensures Lies(file, Base(g, n) + at, s) ==> Lies(other, Base(g, n) + at, s)
  {
    var pos := Base(g, n) + at;
    if Lies(file, pos, s) {
      forall k | 0 <= k < |s| ensures other[pos + k] == s[k] {
        assert file[pos..pos + |s|][k] == s[k];
      }
      assert other[pos..pos + |s|] == s;
    }
  }

  lemma {:induction false} Field16Same(file: bytes, other: bytes, g: Geometry, pages: set<nat>, n: nat, at: nat, v: nat)
    requires SamePages(file, other, g, pages) && n in pages && at + 2 <= g.pageSize
    ensures Field16(file, Base(g, n) + at, g.order, v) ==> Field16(other, Base(g, n) + at, g.order, v)
  {
    hide SamePages, Lies, Base;
    if v < 0x10000 {
      LiesSame(file, other, g, pages, n, at, Put16(g.order, v));
    }
  }

  lemma {:induction false} Field32Same(file: bytes, other: bytes, g: Geometry, pages: set<nat>, n: nat, at: nat, v: nat)
    requires SamePages(file, other, g, pages) && n in pages && at + 4 <= g.pageSize
    ensures Field32(file, Base(g, n) + at, g.order, v) ==> Field32(other, Base(g, n) + at, g.order, v)
  {
    hide SamePages, Lies, Base, Put32;
    if v < TWO_32 {
      LiesSame(file, other, g, pages, n, at, Put32(g.order, v));
    }
  }

  lemma {:induction false} PageSame(file: bytes, other: bytes, g: Geometry, pages: set<nat>, pgno: nat, next: nat,
                                    kind: byte)
    requires g.pageSize >= 26 && SamePages(file, other, g, pages) && pgno in pages
    requires HoldsPage(file, g, pgno, next, kind)
    ensures HoldsPage(other, g, pgno, next, kind)
  {
    hide Lies, Base, Field32;
    Field32Same(file, other, g, pages, pgno, 8, pgno);
    Field32Same(file, other, g, pages, pgno, 16, next);
    LiesSame(file, other, g, pages, pgno, 25, [kind]);
  }

  lemma {:induction false} ChunkSame(file: bytes, other: bytes, g: Geometry, pages: set<nat>, c: Chunk)
    requires g.pageSize >= 26 && SamePages(file, other, g, pages) && c.pgno in pages && HoldsChunk(file, g, c)
    ensures HoldsChunk(other, g, c)
  {
    hide SamePages, HoldsPage, Lies, Base, Field16;
    PageSame(file, other, g, pages, c.pgno, c.next, 7);
    Field16Same(file, other, g, pages, c.pgno, 22, |c.data|);
    LiesSame(file, other, g, pages, c.pgno, 26, c.data);
  }

  lemma {:induction false} ChunksSame(file: bytes, other: bytes, g: Geometry, pages: set<nat>, pgno: nat,
                                      cs: seq<Chunk>)
    requires g.pageSize >= 26 && SamePages(file, other, g, pages) && ChunkPages(cs) <= pages
    requires HoldsChunks(file, g, pgno, cs)
    ensures HoldsChunks(other, g, pgno, cs)
    decreases |cs|
  {
    hide SamePages, HoldsChunk;
    if cs != [] {
      ChunkSame(file, other, g, pages, cs[0]);
      ChunksSame(file, other, g, pages, cs[0].next, cs[1..]);
    }
  }

  lemma {:induction false} PairSame(file: bytes, other: bytes, g: Geometry, pages: set<nat>, p: Pair)
    requires g.pageSize >= 26 && SamePages(file, other, g, pages)
    requires CellPages(p.key) + CellPages(p.value) <= pages && HoldsPair(file, g, p)
    ensures HoldsPair(other, g, p)
  {
    hide SamePages, HoldsChunks, Payload, IsHeaderNumber;
    if p.key.OffPage? {
      ChunksSame(file, other, g, pages, p.key.chunks[0].pgno, p.key.chunks);
    }
    if p.value.OffPage? {
      ChunksSame(file, other, g, pages, p.value.chunks[0].pgno, p.value.chunks);
    }
  }

  lemma {:induction false} PairsSame(file: bytes, other: bytes, g: Geometry, pages: set<nat>, n: nat, i: nat,
                                     end: nat, ps: seq<Pair>)
    requires 26 + 4 * (i + |ps|) <= g.pageSize && end <= g.pageSize && n in pages
    requires SamePages(file, other, g, pages) && PairPages(ps) <= pages
    requires HoldsPairs(file, g, Base(g, n), i, end, ps)
    ensures HoldsPairs(other, g, Base(g, n), i, end, ps)
    decreases |ps|
  {
    hide SamePages, HoldsCell, CellBytes, CellPages, Lies, Base, Field16, Payload, Fits;
    if ps != [] {
      PairSame(file, other, g, pages, ps[0]);
      CellFits(file, g, ps[0].key);
      CellFits(file, g, ps[0].value);
      var key, value := CellBytes(g.order, ps[0].key), CellBytes(g.order, ps[0].value);
      var koff, voff := end - |key|, end - |key| - |value|;
      Field16Same(file, other, g, pages, n, 26 + 4 * i, koff);
      Field16Same(file, other, g, pages, n, 26 + 4 * i + 2, voff);
      LiesSame(file, other, g, pages, n, voff, value);
      LiesSame(file, other, g, pages, n, koff, key);
      PairsSame(file, other, g, pages, n, i + 1, voff, ps[1..]);
    }
  }

  lemma {:induction false} ChainSame(file: bytes, other: bytes, g: Geometry, pages: set<nat>, pgno: nat,
                                     chain: seq<Leaf>)
    requires SamePages(file, other, g, pages) && ChainReach(chain) <= pages && HoldsChain(file, g, pgno, chain)
    ensures HoldsChain(other, g, pgno, chain)
    decreases |chain|
  {
    hide SamePages, HoldsPage, HoldsPairs, PairPages, Base, Field16;
    if chain != [] {
      var leaf := chain[0];
      PageSame(file, other, g, pages, pgno, leaf.next, leaf.kind);
      Field16Same(file, other, g, pages, pgno, 20, 2 * |leaf.pairs| + if leaf.odd then 1 else 0);
      PairsSame(file, other, g, pages, pgno, 0, g.pageSize, leaf.pairs);
      ChainSame(file, other, g, pages, leaf.next, chain[1..]);
    }
  }

  lemma {:induction false} BucketsSame(file: bytes, other: bytes, g: Geometry, pages: set<nat>, bucket: nat,
                                       chains: seq<seq<Leaf>>)
    requires SamePages(file, other, g, pages) && Reach(chains) <= pages && HoldsBuckets(file, g, bucket, chains)
    ensures HoldsBuckets(other, g, bucket, chains)
    decreases |chains|
  {
    hide SamePages, HoldsChain, BitLength, ChainReach;
    if chains != [] {
      ChainSame(file, other, g, pages, bucket + g.spares[BitLength(bucket)], chains[0]);
      BucketsSame(file, other, g, pages, bucket + 1, chains[1..]);
    }
  }

  /** In a hash database nothing matters but the meta page and the pages some bucket reaches, whatever bytes
      freed and other unreachable pages hold. */
  lemma {:induction false} OnlyReachMatters(file: bytes, other: bytes, size: nat, db: Database)
    requires IsDatabase(file, size, db)
    requires META <= |other| && META <= |file| && other[..META] == file[..META]
    requires SamePages(file, other, db.g, Reach(db.chains))
    ensures IsDatabase(other, size, db) && Read(other, size) == Read(file, size)
  {
    hide ReadGeometry, HoldsBuckets, Read, IsMeta, SamePages;
    MetaSame(file, other, size, db.version, db.g);
    BucketsSame(file, other, db.g, Reach(db.chains), 0, db.chains);
    DatabaseReads(file, size, db);
    DatabaseReads(other, size, db);
  }

  lemma {:induction false} MetaSame(file: bytes, other: bytes, size: nat, version: nat, g: Geometry)
    requires META <= |other| && META <= |file| && other[..META] == file[..META] && IsMeta(file, size, version, g)
    ensures IsMeta(other, size, version, g)
  {
    hide IsPowerOfTwo, Field32, U32;
    assert other[0..META] == file[0..META];
    MetaFields(file, g);
    MetaFields(other, g);
    Field32Reads(file, 0, META, 16, g.order, version);
    Field32Reads(other, 0, META, 16, g.order, version);
  }

  lemma {:induction false} SameGeometry(file: bytes, other: bytes, size: nat)
    requires |other| == |file| && (META <= |file| ==> other[..META] == file[..META])
    ensures ReadGeometry(other, size) == ReadGeometry(file, size)
  {
    if META <= |file| {
      assert other[0..META] == other[..META] && file[0..META] == file[..META];
    }
    hide U32, MagicOrder, IsPageSize;
  }

  // ---- The pages a read touches, on any file ----

  function OverflowTouched(file: bytes, g: Geometry, pgno: nat, need: nat, seen: set<nat>): set<nat>
    requires IsPageSize(g.pageSize)
    decreases |Unseen(g, seen)|
  {
    if need == 0 || pgno in seen then {}
    else
      {pgno} + match OverflowPage(file, g, pgno, need)
               case None => {}
               case Some((data, next)) =>
                 SeeingShrinks(g, seen, pgno);
                 OverflowTouched(file, g, next, need - |data|, seen + {pgno})
  }

  function ItemTouched(file: bytes, g: Geometry, pg: bytes, off: nat, end: nat): set<nat>
    requires IsPageSize(g.pageSize) && |pg| == g.pageSize && off < end <= |pg|
  {
    if pg[off] == OFFPAGE && end - off == OFFPAGE_ITEM then
      OverflowTouched(file, g, U32(g.order, pg, off + 4), U32(g.order, pg, off + 8), {})
    else {}
  }

  function PairsTouched(file: bytes, g: Geometry, pg: bytes, pairs: nat, i: nat, end: nat): set<nat>
    requires IsPageSize(g.pageSize) && |pg| == g.pageSize && PAGE_HEADER + 4 * pairs <= |pg| && i <= pairs
    decreases pairs - i
  {
    if i == pairs then {}
    else
      var koff, voff := Offset(g, pg, 2 * i), Offset(g, pg, 2 * i + 1);
      if !(voff < koff < end <= g.pageSize) then {}
      else
        ItemTouched(file, g, pg, koff, end) + ItemTouched(file, g, pg, voff, koff)
        + PairsTouched(file, g, pg, pairs, i + 1, voff)
  }

  function ChainTouched(file: bytes, g: Geometry, pgno: nat, visited: set<nat>): set<nat>
    requires IsPageSize(g.pageSize)
    decreases |Unseen(g, visited)|
  {
    if pgno == 0 || pgno in visited then {}
    else
      {pgno} + match HashPage(file, g, pgno)
               case None => {}
               case Some(pg) =>
                 SeeingShrinks(g, visited, pgno);
                 PairsTouched(file, g, pg, U16(g.order, pg, 20) / 2, 0, g.pageSize)
                 + ChainTouched(file, g, U32(g.order, pg, 16), visited + {pgno})
  }

  // Those of every bucket's chain, and of the overflow items on it.
  function Touched(file: bytes, g: Geometry, bucket: nat, visited: set<nat>): set<nat>
    requires Sound(g) && bucket <= g.maxBucket + 1
    decreases g.maxBucket + 1 - bucket
  {
    if bucket > g.maxBucket || BitLength(bucket) >= SPARES then {}
    else
      var start := bucket + g.spares[BitLength(bucket)];
      ChainTouched(file, g, start, visited) + Touched(file, g, bucket + 1, Chain(file, g, start, visited).visited)
  }

  lemma {:induction false} OverflowReadsAlike(file: bytes, other: bytes, g: Geometry, pages: set<nat>, pgno: nat,
                                              need: nat, seen: set<nat>)
    requires IsPageSize(g.pageSize) && SamePages(file, other, g, pages)
    requires OverflowTouched(file, g, pgno, need, seen) <= pages
    ensures Overflow(other, g, pgno, need, seen) == Overflow(file, g, pgno, need, seen)
    decreases |Unseen(g, seen)|
  {
    hide SamePages, PageAt, U32, U16, IsPageSize, Unseen;
    if need != 0 && pgno !in seen {
      SamePage(file, other, g, pages, pgno);
      assert OverflowPage(other, g, pgno, need) == OverflowPage(file, g, pgno, need);
      hide OverflowPage;
      if OverflowPage(file, g, pgno, need).Some? {
        var (data, next) := OverflowPage(file, g, pgno, need).value;
        SeeingShrinks(g, seen, pgno);
        OverflowReadsAlike(file, other, g, pages, next, need - |data|, seen + {pgno});
      }
    }
  }

  lemma {:induction false} ItemReadsAlike(file: bytes, other: bytes, g: Geometry, pages: set<nat>, pg: bytes, off: nat,
                                          end: nat)
    requires IsPageSize(g.pageSize) && SamePages(file, other, g, pages)
    requires |pg| == g.pageSize && off < end <= |pg| && ItemTouched(file, g, pg, off, end) <= pages
    ensures Item(other, g, pg, off, end) == Item(file, g, pg, off, end)
  {
    hide SamePages, Overflow, OverflowTouched, U32, IsPageSize;
    if pg[off] == OFFPAGE && end - off == OFFPAGE_ITEM {
      OverflowReadsAlike(file, other, g, pages, U32(g.order, pg, off + 4), U32(g.order, pg, off + 8), {});
    }
  }

  lemma {:induction false} PairsReadAlike(file: bytes, other: bytes, g: Geometry, pages: set<nat>, pg: bytes,
                                          pairs: nat, i: nat, end: nat)
    requires IsPageSize(g.pageSize) && SamePages(file, other, g, pages)
    requires |pg| == g.pageSize && PAGE_HEADER + 4 * pairs <= |pg| && i <= pairs
    requires PairsTouched(file, g, pg, pairs, i, end) <= pages
    ensures Pairs(other, g, pg, pairs, i, end) == Pairs(file, g, pg, pairs, i, end)
    decreases pairs - i
  {
    hide SamePages, Item, ItemTouched, U16, IsPageSize, IsPackageKey;
    if i < pairs {
      var koff, voff := Offset(g, pg, 2 * i), Offset(g, pg, 2 * i + 1);
      if voff < koff < end <= g.pageSize {
        ItemReadsAlike(file, other, g, pages, pg, koff, end);
        ItemReadsAlike(file, other, g, pages, pg, voff, koff);
        PairsReadAlike(file, other, g, pages, pg, pairs, i + 1, voff);
      }
    }
  }

  lemma {:induction false} ChainReadsAlike(file: bytes, other: bytes, g: Geometry, pages: set<nat>, pgno: nat,
                                           visited: set<nat>)
    requires IsPageSize(g.pageSize) && SamePages(file, other, g, pages) && ChainTouched(file, g, pgno, visited) <= pages
    ensures Chain(other, g, pgno, visited) == Chain(file, g, pgno, visited)
    decreases |Unseen(g, visited)|
  {
    hide SamePages, PageAt, U32, U16, IsPageSize, Unseen, Pairs, PairsTouched;
    if pgno != 0 && pgno !in visited {
      SamePage(file, other, g, pages, pgno);
      assert HashPage(other, g, pgno) == HashPage(file, g, pgno);
      hide HashPage;
      if HashPage(file, g, pgno).Some? {
        var pg := HashPage(file, g, pgno).value;
        PairsReadAlike(file, other, g, pages, pg, U16(g.order, pg, 20) / 2, 0, g.pageSize);
        SeeingShrinks(g, visited, pgno);
        ChainReadsAlike(file, other, g, pages, U32(g.order, pg, 16), visited + {pgno});
      }
    }
  }

  lemma {:induction false} BucketsReadAlike(file: bytes, other: bytes, g: Geometry, pages: set<nat>, bucket: nat,
                                            visited: set<nat>)
    requires Sound(g) && bucket <= g.maxBucket + 1
    requires SamePages(file, other, g, pages) && Touched(file, g, bucket, visited) <= pages
    ensures Buckets(other, g, bucket, visited) == Buckets(file, g, bucket, visited)
    decreases g.maxBucket + 1 - bucket
  {
    hide SamePages, Chain, ChainTouched, BitLength;
    if bucket <= g.maxBucket && BitLength(bucket) < SPARES {
      var start := bucket + g.spares[BitLength(bucket)];
      ChainReadsAlike(file, other, g, pages, start, visited);
      BucketsReadAlike(file, other, g, pages, bucket + 1, Chain(file, g, start, visited).visited);
    }
  }

  /** Any two files that agree on the meta page and on the pages the read of one touches read alike, corrupt
      ones included. */
  lemma {:induction false} UnreachableIsIrrelevant(file: bytes, other: bytes, size: nat)
    requires |other| == |file| && (META <= |file| ==> other[..META] == file[..META])
    requires var g := ReadGeometry(file, size);
             g.Some? ==> SamePages(file, other, g.value, Touched(file, g.value, 0, {}))
    ensures Read(other, size) == Read(file, size)
  {
    SameGeometry(file, other, size);
    hide ReadGeometry, SamePages, Touched, Buckets;
    var g := ReadGeometry(file, size);
    if g.Some? {
      BucketsReadAlike(file, other, g.value, Touched(file, g.value, 0, {}), 0, {});
    }
  }
}
