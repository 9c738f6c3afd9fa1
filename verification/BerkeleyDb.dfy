/**
  The reader of Berkeley DB hash rpm databases: it walks every bucket's page chain, and the overflow chain
  of every long item, over a file that may hold anything.
 */
module BerkeleyDb {
  import opened Bytes
  import opened Options
  import opened BlobRun

  const HASH_MAGIC: nat := 0x0006_1561
  const META: nat := 512
  const PAGE_HEADER: nat := 26
  const OVERFLOW_PAGE: nat := 7
  const KEYDATA: nat := 1
  const OFFPAGE: nat := 3
  const OFFPAGE_ITEM: nat := 12
  const SPARES: nat := 32

  // A power of two from 512 to 65536.
  predicate IsPageSize(n: nat) {
    n == 512 || n == 1024 || n == 2048 || n == 4096 || n == 8192 || n == 16384 || n == 32768 || n == 65536
  }

  predicate IsHashType(t: byte) {
    t == 2 || t == 13
  }

  datatype Geometry = Geometry(order: Order, pageSize: nat, lastPage: nat, maxBucket: nat, spares: seq<nat>)

  ghost predicate Sound(g: Geometry) {
    IsPageSize(g.pageSize) && g.maxBucket <= g.lastPage && |g.spares| == SPARES
  }

  function MagicOrder(meta: bytes): Option<Order>
    requires |meta| == META
  {
    if U32(Little, meta, 12) == HASH_MAGIC then Some(Little)
    else if U32(Big, meta, 12) == HASH_MAGIC then Some(Big)
    else None
  }

  function ReadGeometry(file: bytes, size: nat): (r: Option<Geometry>)
    ensures r.Some? ==> Sound(r.value) && (r.value.lastPage + 1) * r.value.pageSize <= size
  {
    match Pread(file, META, 0)
    case None => None
    case Some(meta) =>
      match MagicOrder(meta)
      case None => None
      case Some(o) =>
        var version, pageSize := U32(o, meta, 16), U32(o, meta, 20);
        var lastPage, maxBucket := U32(o, meta, 32), U32(o, meta, 72);
        var spares := seq(SPARES, i requires 0 <= i < SPARES => U32(o, meta, 96 + 4 * i));
        if !(8 <= version <= 10) || !IsPageSize(pageSize) then None
        else if (lastPage + 1) * pageSize > size || maxBucket > lastPage then None
        else Some(Geometry(o, pageSize, lastPage, maxBucket, spares))
  }

  // ---- Pages ----

  function PageAt(file: bytes, g: Geometry, pgno: nat): (r: Option<bytes>)
    requires IsPageSize(g.pageSize)
    ensures r.Some? ==> |r.value| == g.pageSize && 0 < pgno <= g.lastPage
  {
    if !(0 < pgno <= g.lastPage) then None
    else match Pread(file, g.pageSize, pgno * g.pageSize)
      case None => None
      case Some(pg) => if U32(g.order, pg, 8) != pgno then None else Some(pg)
  }

  function PageNumbers(last: nat): (s: set<nat>)
    ensures forall n :: n in s <==> 0 < n <= last
  {
    if last == 0 then {} else PageNumbers(last - 1) + {last}
  }

  // Pages not yet seen: what bounds both chain walks.
  function Unseen(g: Geometry, seen: set<nat>): set<nat> {
    PageNumbers(g.lastPage) - seen
  }

  lemma {:induction false} SeeingShrinks(g: Geometry, seen: set<nat>, pgno: nat)
    requires 0 < pgno <= g.lastPage && pgno !in seen
    ensures |Unseen(g, seen + {pgno})| < |Unseen(g, seen)|
  {
    assert pgno in Unseen(g, seen);
    assert Unseen(g, seen + {pgno}) == Unseen(g, seen) - {pgno};
  }

  // The data of an overflow page that has at most `need` bytes to give, and the next page.
  function OverflowPage(file: bytes, g: Geometry, pgno: nat, need: nat): (r: Option<(bytes, nat)>)
    requires IsPageSize(g.pageSize)
    ensures r.Some? ==> 0 < pgno <= g.lastPage && 0 < |r.value.0| <= need
  {
    match PageAt(file, g, pgno)
    case None => None
    case Some(pg) =>
      var used := U16(g.order, pg, 22);
      if pg[25] != OVERFLOW_PAGE then None
      else if used == 0 || used + PAGE_HEADER > g.pageSize || used > need then None
      else Some((pg[PAGE_HEADER..PAGE_HEADER + used], U32(g.order, pg, 16)))
  }

  // The next `need` bytes of an overflow chain.
  function Overflow(file: bytes, g: Geometry, pgno: nat, need: nat, seen: set<nat>): (r: Option<bytes>)
    requires IsPageSize(g.pageSize)
    ensures r.Some? ==> |r.value| == need
    decreases |Unseen(g, seen)|
  {
    if need == 0 then Some([])
    else if pgno in seen then None
    else match OverflowPage(file, g, pgno, need)
      case None => None
      case Some((data, next)) =>
        SeeingShrinks(g, seen, pgno);
        After(data, Overflow(file, g, next, need - |data|, seen + {pgno}))
  }

  function After(data: bytes, rest: Option<bytes>): (r: Option<bytes>)
    ensures r.Some? == rest.Some? && (r.Some? ==> |r.value| == |data| + |rest.value|)
  {
    match rest case None => None case Some(s) => Some(data + s)
  }

  lemma {:induction false} AfterTwice(a: bytes, b: bytes, rest: Option<bytes>)
    ensures After(a, After(b, rest)) == After(a + b, rest) && After([], rest) == rest && After(a, Some([])) == Some(a)
  {
    if rest.Some? {
      assert a + (b + rest.value) == (a + b) + rest.value;
      assert [] + rest.value == rest.value;
    }
    assert a + [] == a;
  }

  // The item that takes the bytes off..end of a page.
  function Item(file: bytes, g: Geometry, pg: bytes, off: nat, end: nat): Option<bytes>
    requires IsPageSize(g.pageSize) && |pg| == g.pageSize && off < end <= |pg|
  {
    if pg[off] == KEYDATA then Some(pg[off + 1..end])
    else if pg[off] == OFFPAGE && end - off == OFFPAGE_ITEM then
      var pgno, total := U32(g.order, pg, off + 4), U32(g.order, pg, off + 8);
      if total == 0 then None else Overflow(file, g, pgno, total, {})
    else None
  }

  // Packages is keyed by a 4-byte header number; record 0 is rpm's instance counter.
  predicate IsPackageKey(g: Geometry, key: bytes) {
    |key| == 4 && U32(g.order, key, 0) != 0
  }

  function Offset(g: Geometry, pg: bytes, i: nat): nat
    requires PAGE_HEADER + 2 * (i + 1) <= |pg|
  {
    U16(g.order, pg, PAGE_HEADER + 2 * i)
  }

  // What the pairs i, i + 1, ... of a page with `pairs` pairs yield; the last items end at `end`.
  function Pairs(file: bytes, g: Geometry, pg: bytes, pairs: nat, i: nat, end: nat): Run
    requires IsPageSize(g.pageSize) && |pg| == g.pageSize && PAGE_HEADER + 4 * pairs <= |pg|
    requires i <= pairs
    decreases pairs - i
  {
    if i == pairs then Run([], Complete)
    else
      var koff, voff := Offset(g, pg, 2 * i), Offset(g, pg, 2 * i + 1);
      if !(voff < koff < end <= g.pageSize) then Run([], Corrupt)
      else match Item(file, g, pg, koff, end)
        case None => Run([], Corrupt)
        case Some(key) =>
          if !IsPackageKey(g, key) then Pairs(file, g, pg, pairs, i + 1, voff)
          else match Item(file, g, pg, voff, koff)
            case None => Run([], Corrupt)
            case Some(value) => Yield([value], Pairs(file, g, pg, pairs, i + 1, voff))
  }

  function HashPage(file: bytes, g: Geometry, pgno: nat): (r: Option<bytes>)
    requires IsPageSize(g.pageSize)
    ensures r.Some? ==> |r.value| == g.pageSize && 0 < pgno <= g.lastPage
    ensures r.Some? ==> PAGE_HEADER + 2 * U16(g.order, r.value, 20) <= g.pageSize
  {
    match PageAt(file, g, pgno)
    case None => None
    case Some(pg) =>
      if !IsHashType(pg[25]) || U16(g.order, pg, 20) > (g.pageSize - PAGE_HEADER) / 2 then None else Some(pg)
  }

  // A page's own values: it pairs its index entries up, ignoring an odd last one.
  function PageValues(file: bytes, g: Geometry, pg: bytes): Run
    requires IsPageSize(g.pageSize) && |pg| == g.pageSize
    requires PAGE_HEADER + 2 * U16(g.order, pg, 20) <= g.pageSize
  {
    Pairs(file, g, pg, U16(g.order, pg, 20) / 2, 0, g.pageSize)
  }

  // ---- Chains and buckets ----

  datatype ChainRun = ChainRun(run: Run, visited: set<nat>)

  function Chain(file: bytes, g: Geometry, pgno: nat, visited: set<nat>): ChainRun
    requires IsPageSize(g.pageSize)
    decreases |Unseen(g, visited)|
  {
    if pgno == 0 then ChainRun(Run([], Complete), visited)
    else if pgno in visited then ChainRun(Run([], Corrupt), visited)
    else match HashPage(file, g, pgno)
      case None => ChainRun(Run([], Corrupt), visited)
      case Some(pg) =>
        var values := PageValues(file, g, pg);
        if values.end != Complete then ChainRun(values, visited)
        else
          SeeingShrinks(g, visited, pgno);
          var rest := Chain(file, g, U32(g.order, pg, 16), visited + {pgno});
          rest.(run := Yield(values.blobs, rest.run))
  }

  function Buckets(file: bytes, g: Geometry, bucket: nat, visited: set<nat>): Run
    requires Sound(g) && bucket <= g.maxBucket + 1
    decreases g.maxBucket + 1 - bucket
  {
    if bucket > g.maxBucket then Run([], Complete)
    else if BitLength(bucket) >= SPARES then Run([], Crashed)
    else
      var chain := Chain(file, g, bucket + g.spares[BitLength(bucket)], visited);
      if chain.run.end != Complete then chain.run
      else Yield(chain.run.blobs, Buckets(file, g, bucket + 1, chain.visited))
  }

  function Read(file: bytes, size: nat): Run {
    match ReadGeometry(file, size)
    case None => Run([], Corrupt)
    case Some(g) => Buckets(file, g, 0, {})
  }

  // ---- The loops ----

  method ReadOverflow(file: bytes, g: Geometry, start: nat, total: nat) returns (r: Option<bytes>)
    requires IsPageSize(g.pageSize)
    ensures r == if total == 0 then None else Overflow(file, g, start, total, {})
  {
    if total == 0 {
      return None;
    }
    hide OverflowPage, Unseen, After;
    var pgno := start;
    var out: bytes := [];
    var seen: set<nat> := {};
    ghost var whole := Overflow(file, g, start, total, {});
    AfterTwice([], [], whole);
    while |out| < total
      invariant |out| <= total
      invariant whole == After(out, Overflow(file, g, pgno, total - |out|, seen))
      decreases |Unseen(g, seen)|
    {
      if pgno in seen {
        return None;
      }
      var page := OverflowPage(file, g, pgno, total - |out|);
      if page == None {
        return None;
      }
      SeeingShrinks(g, seen, pgno);
      seen := seen + {pgno};
      AfterTwice(out, page.value.0, Overflow(file, g, page.value.1, total - |out| - |page.value.0|, seen));
      out := out + page.value.0;
      pgno := page.value.1;
    }
    AfterTwice(out, [], None);
    r := Some(out);
  }

  method ReadItem(file: bytes, g: Geometry, pg: bytes, off: nat, end: nat) returns (r: Option<bytes>)
    requires IsPageSize(g.pageSize) && |pg| == g.pageSize && off < end <= |pg|
    ensures r == Item(file, g, pg, off, end)
  {
    hide Overflow, U32;
    if pg[off] == KEYDATA {
      return Some(pg[off + 1..end]);
    }
    if pg[off] == OFFPAGE && end - off == OFFPAGE_ITEM {
      r := ReadOverflow(file, g, U32(g.order, pg, off + 4), U32(g.order, pg, off + 8));
      return;
    }
    return None;
  }

  method ReadPairs(file: bytes, g: Geometry, pg: bytes, nent: nat) returns (run: Run)
    requires IsPageSize(g.pageSize) && |pg| == g.pageSize && PAGE_HEADER + 2 * nent <= g.pageSize
    ensures run == Pairs(file, g, pg, nent / 2, 0, g.pageSize)
  {
    hide Item, U16, IsPackageKey;
    var out: seq<bytes> := [];
    var idx := 0;
    ghost var i, end: nat := 0, g.pageSize;
    ghost var whole := Pairs(file, g, pg, nent / 2, 0, g.pageSize);
    while idx + 1 < nent
      invariant idx == 2 * i && i <= nent / 2
      invariant end == if idx == 0 then g.pageSize else Offset(g, pg, idx - 1)
      invariant whole == Yield(out, Pairs(file, g, pg, nent / 2, i, end))
    {
      var koff, voff := Offset(g, pg, idx), Offset(g, pg, idx + 1);
      var kend := if idx == 0 then g.pageSize else Offset(g, pg, idx - 1);
      ghost var before := out;
      assert out + [] == out;
      if !(voff < koff < kend <= g.pageSize) {
        return Run(out, Corrupt);
      }
      var key := ReadItem(file, g, pg, koff, kend);
      if key == None {
        return Run(out, Corrupt);
      }
      if IsPackageKey(g, key.value) {
        var value := ReadItem(file, g, pg, voff, koff);
        if value == None {
          return Run(out, Corrupt);
        }
        out := out + [value.value];
        YieldTwice(before, [value.value], Pairs(file, g, pg, nent / 2, i + 1, voff));
      }
      end := voff;
      idx := idx + 2;
      i := i + 1;
    }
    assert out + [] == out;
    run := Run(out, Complete);
  }

  method ReadChain(file: bytes, g: Geometry, start: nat, visited0: set<nat>) returns (run: Run, visited: set<nat>)
    requires IsPageSize(g.pageSize)
    ensures ChainRun(run, visited) == Chain(file, g, start, visited0)
  {
    hide HashPage, Pairs, Unseen, U32, U16;
    var pgno := start;
    var out: seq<bytes> := [];
    visited := visited0;
    ghost var whole := Chain(file, g, start, visited0);
    while pgno != 0
      invariant var rest := Chain(file, g, pgno, visited); whole == rest.(run := Yield(out, rest.run))
      decreases |Unseen(g, visited)|
    {
      assert out + [] == out;
      if pgno in visited {
        return Run(out, Corrupt), visited;
      }
      var pg := HashPage(file, g, pgno);
      if pg == None {
        return Run(out, Corrupt), visited;
      }
      var values := ReadPairs(file, g, pg.value, U16(g.order, pg.value, 20));
      if values.end != Complete {
        return Yield(out, values), visited;
      }
      SeeingShrinks(g, visited, pgno);
      visited := visited + {pgno};
      pgno := U32(g.order, pg.value, 16);
      YieldTwice(out, values.blobs, Chain(file, g, pgno, visited).run);
      out := out + values.blobs;
    }
    assert out + [] == out;
    run := Run(out, Complete);
  }

  /** The generator: every bucket's chain in turn. */
  method IterBdbHashValues(file: bytes, size: nat) returns (run: Run)
    ensures run == Read(file, size)
  {
    hide ReadGeometry, Chain, BitLength;
    var geometry := ReadGeometry(file, size);
    if geometry == None {
      return Run([], Corrupt);
    }
    var g := geometry.value;
    var out: seq<bytes> := [];
    var visited: set<nat> := {};
    var bucket := 0;
    ghost var whole := Buckets(file, g, 0, {});
    while bucket <= g.maxBucket
      invariant bucket <= g.maxBucket + 1
      invariant whole == Yield(out, Buckets(file, g, bucket, visited))
      decreases g.maxBucket + 1 - bucket
    {
      assert out + [] == out;
      if BitLength(bucket) >= SPARES {
        return Run(out, Crashed);
      }
      var values;
      values, visited := ReadChain(file, g, bucket + g.spares[BitLength(bucket)], visited);
      if values.end != Complete {
        return Yield(out, values);
      }
      YieldTwice(out, values.blobs, Buckets(file, g, bucket + 1, visited));
      out := out + values.blobs;
      bucket := bucket + 1;
    }
    assert out + [] == out;
    run := Run(out, Complete);
  }
}
