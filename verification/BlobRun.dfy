/** What a database reader yields before it ends: the generators of the two rpm database readers. */
module BlobRun {
  import opened Bytes

  // Corrupt is RpmdbError, OSError or struct.error; Crashed is an IndexError, which nothing catches.
  datatype End = Complete | Corrupt | Crashed

  datatype Run = Run(blobs: seq<bytes>, end: End)

  function Yield(blobs: seq<bytes>, r: Run): Run {
    r.(blobs := blobs + r.blobs)
  }

  lemma {:induction false} YieldTwice(a: seq<bytes>, b: seq<bytes>, r: Run)
    ensures Yield(a, Yield(b, r)) == Yield(a + b, r)
  {
    assert a + (b + r.blobs) == (a + b) + r.blobs;
  }
}
