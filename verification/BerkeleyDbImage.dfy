/** What the Berkeley DB reader accepts, and what it never does on any file. */
module BerkeleyDbImage {
  import opened Bytes
  import opened Options
  import opened BlobRun
  import opened BerkeleyDb

  // ---- Safety on arbitrary bytes ----

  lemma {:induction false} BitLengthBound(n: nat, k: nat)
    requires n < Pow2(k)
    ensures BitLength(n) <= k
    decreases k
  {
    if k > 0 && n > 0 {
      BitLengthBound(n / 2, k - 1);
    }
  }

  lemma {:induction false} BucketsNeverCrash(file: bytes, g: Geometry, bucket: nat, visited: set<nat>)
    requires Sound(g) && bucket <= g.maxBucket + 1 && g.maxBucket < Pow2(SPARES - 1)
    ensures Buckets(file, g, bucket, visited).end != Crashed
    decreases g.maxBucket + 1 - bucket
  {
    hide Pow2, Chain;
    if bucket <= g.maxBucket {
      BitLengthBound(bucket, SPARES - 1);
      var start := bucket + g.spares[BitLength(bucket)];
      ChainNeverCrashes(file, g, start, visited);
      BucketsNeverCrash(file, g, bucket + 1, Chain(file, g, start, visited).visited);
    }
  }

  lemma {:induction false} ChainNeverCrashes(file: bytes, g: Geometry, pgno: nat, visited: set<nat>)
    requires IsPageSize(g.pageSize)
    ensures Chain(file, g, pgno, visited).run.end != Crashed
    decreases |Unseen(g, visited)|
  {
    hide Pairs, Unseen, HashPage, U16, U32;
    if pgno != 0 && pgno !in visited && HashPage(file, g, pgno).Some? {
      var pg := HashPage(file, g, pgno).value;
      PairsNeverCrash(file, g, pg, U16(g.order, pg, 20) / 2, 0, g.pageSize);
      SeeingShrinks(g, visited, pgno);
      ChainNeverCrashes(file, g, U32(g.order, pg, 16), visited + {pgno});
    }
  }

  lemma {:induction false} PairsNeverCrash(file: bytes, g: Geometry, pg: bytes, pairs: nat, i: nat, end: nat)
    requires IsPageSize(g.pageSize) && |pg| == g.pageSize && PAGE_HEADER + 4 * pairs <= |pg| && i <= pairs
    ensures Pairs(file, g, pg, pairs, i, end).end != Crashed
    decreases pairs - i
  {
    hide Item, U16, IsPackageKey;
    if i < pairs {
      PairsNeverCrash(file, g, pg, pairs, i + 1, Offset(g, pg, 2 * i + 1));
    }
  }

  lemma {:induction false} Pow31()
    ensures Pow2(SPARES - 1) == 0x8000_0000
  {
    assert Pow2(8) == 0x100;
    assert Pow2(16) == 0x1_0000;
    assert Pow2(24) == 0x100_0000;
    assert Pow2(31) == 0x8000_0000;
  }

  lemma {:induction false} FewPages(pages: nat, pageSize: nat, size: nat)
    requires IsPageSize(pageSize) && pages * pageSize <= size
    ensures pages * 512 <= size
  {
    assert pages * 512 <= pages * pageSize;
  }

  /** The bucket arithmetic never indexes `spares` out of range in a file of less than 2^40 bytes. */
  lemma {:induction false} SparesStayInRange(file: bytes, size: nat)
    requires size < 0x100_0000_0000
    ensures Read(file, size).end != Crashed
  {
    var geometry := ReadGeometry(file, size);
    if geometry.Some? {
      var g := geometry.value;
      FewPages(g.lastPage + 1, g.pageSize, size);
      hide ReadGeometry, Buckets, Pow2, IsPageSize;
      Pow31();
      BucketsNeverCrash(file, g, 0, {});
    }
  }

  // The hash pages a chain walk reads, in order.
  function ChainPages(file: bytes, g: Geometry, pgno: nat, visited: set<nat>): seq<nat>
    requires IsPageSize(g.pageSize)
    decreases |Unseen(g, visited)|
  {
    if pgno == 0 || pgno in visited then []
    else match HashPage(file, g, pgno)
      case None => [pgno]
      case Some(pg) =>
        if PageValues(file, g, pg).end != Complete then [pgno]
        else
          SeeingShrinks(g, visited, pgno);
          [pgno] + ChainPages(file, g, U32(g.order, pg, 16), visited + {pgno})
  }

  function BucketPages(file: bytes, g: Geometry, bucket: nat, visited: set<nat>): seq<nat>
    requires Sound(g) && bucket <= g.maxBucket + 1
    decreases g.maxBucket + 1 - bucket
  {
    if bucket > g.maxBucket || BitLength(bucket) >= SPARES then []
    else
      var start := bucket + g.spares[BitLength(bucket)];
      var chain := Chain(file, g, start, visited);
      ChainPages(file, g, start, visited) +
      if chain.run.end != Complete then [] else BucketPages(file, g, bucket + 1, chain.visited)
  }

  // Each page is new when it comes up.
  predicate Fresh(visited: set<nat>, pages: seq<nat>)
    decreases |pages|
  {
    pages == [] || (pages[0] !in visited && Fresh(visited + {pages[0]}, pages[1..]))
  }

  function Added(visited: set<nat>, pages: seq<nat>): set<nat>
    decreases |pages|
  {
    if pages == [] then visited else Added(visited + {pages[0]}, pages[1..])
  }

  lemma {:induction false} FreshAppend(visited: set<nat>, a: seq<nat>, b: seq<nat>)
    ensures Fresh(visited, a + b) <==> Fresh(visited, a) && Fresh(Added(visited, a), b)
    ensures Added(visited, a + b) == Added(Added(visited, a), b)
    decreases |a|
  {
    if a == [] {
      assert a + b == b;
    } else {
      assert (a + b)[1..] == a[1..] + b;
      FreshAppend(visited + {a[0]}, a[1..], b);
    }
  }

  ghost predicate Distinct(pages: seq<nat>) {
    forall i, j | 0 <= i < j < |pages| :: pages[i] != pages[j]
  }

  lemma {:induction false} FreshMeansDistinct(visited: set<nat>, pages: seq<nat>)
    ensures Fresh(visited, pages) <==> Distinct(pages) && forall p | p in pages :: p !in visited
    decreases |pages|
  {
    if pages != [] {
      var rest := pages[1..];
      FreshMeansDistinct(visited + {pages[0]}, rest);
      assert forall i | 0 <= i < |rest| :: rest[i] == pages[i + 1];
      if Distinct(pages) && forall p | p in pages :: p !in visited {
        forall i, j | 0 <= i < j < |rest| ensures rest[i] != rest[j] {
          assert pages[i + 1] != pages[j + 1];
        }
        forall p | p in rest ensures p !in visited + {pages[0]} {
          var i :| 0 <= i < |rest| && rest[i] == p;
          assert pages[0] != pages[i + 1];
        }
      }
      if Fresh(visited, pages) {
        forall i, j | 0 <= i < j < |pages| ensures pages[i] != pages[j] {
          assert pages[j] == rest[j - 1];
          if i > 0 {
            assert pages[i] == rest[i - 1];
          }
        }
        assert forall p | p in pages :: p == pages[0] || p in rest;
      }
    }
  }

  lemma {:induction false} ChainVisitsFresh(file: bytes, g: Geometry, pgno: nat, visited: set<nat>)
    requires IsPageSize(g.pageSize)
    ensures Fresh(visited, ChainPages(file, g, pgno, visited))
    ensures Chain(file, g, pgno, visited).run.end == Complete ==>
              Chain(file, g, pgno, visited).visited == Added(visited, ChainPages(file, g, pgno, visited))
    decreases |Unseen(g, visited)|
  {
    hide PageValues, Unseen, HashPage, U16, U32;
    if pgno != 0 && pgno !in visited {
      var pages := ChainPages(file, g, pgno, visited);
      assert [pgno][1..] == [];
      if HashPage(file, g, pgno).Some? && PageValues(file, g, HashPage(file, g, pgno).value).end == Complete {
        var next := U32(g.order, HashPage(file, g, pgno).value, 16);
        SeeingShrinks(g, visited, pgno);
        ChainVisitsFresh(file, g, next, visited + {pgno});
        assert pages[1..] == ChainPages(file, g, next, visited + {pgno});
      }
    }
  }

  lemma {:induction false} BucketsVisitFresh(file: bytes, g: Geometry, bucket: nat, visited: set<nat>)
    requires Sound(g) && bucket <= g.maxBucket + 1
    ensures Fresh(visited, BucketPages(file, g, bucket, visited))
    decreases g.maxBucket + 1 - bucket
  {
    hide Chain, ChainPages, BitLength, Fresh, Added;
    if bucket <= g.maxBucket && BitLength(bucket) < SPARES {
      var start := bucket + g.spares[BitLength(bucket)];
      var chain := Chain(file, g, start, visited);
      var pages := ChainPages(file, g, start, visited);
      ChainVisitsFresh(file, g, start, visited);
      if chain.run.end == Complete {
        BucketsVisitFresh(file, g, bucket + 1, chain.visited);
        FreshAppend(visited, pages, BucketPages(file, g, bucket + 1, chain.visited));
      } else {
        assert pages + [] == pages;
      }
    } else {
      FreshMeansDistinct(visited, []);
    }
  }

  /** On any file, no hash page is read twice, in one bucket or across all of them. */
  lemma {:induction false} NoPageTwice(file: bytes, g: Geometry)
    requires Sound(g)
    ensures Distinct(BucketPages(file, g, 0, {}))
  {
    BucketsVisitFresh(file, g, 0, {});
    FreshMeansDistinct({}, BucketPages(file, g, 0, {}));
  }
}
