/** Reading a whole rpm database: every package the reader yields, or none at all. */
module RpmDatabase {
  import opened Bytes
  import opened Options
  import opened BlobRun
  import opened RpmHeader
  import Ndb
  import NdbImage
  import BerkeleyDb
  import BerkeleyDbLayout

  datatype Backend = BdbBackend | NdbBackend(zlib: bool)

  // Crash is the IndexError no caller catches.
  datatype Result = Packages(packages: seq<Package>) | Failed | Crash

  function Reader(backend: Backend, file: bytes, size: nat): Run {
    match backend
    case BdbBackend => BerkeleyDb.Read(file, size)
    case NdbBackend(zlib) => Ndb.Read(file, size, zlib)
  }

  // names is None for all packages.
  predicate Wanted(names: Option<set<bytes>>, p: Package)
    requires HasNameAndVersion(p)
  {
    names.None? || (p["name"].Str? && p["name"].text in names.value)
  }

  // The packages of the blobs, or None once one of them does not parse.
  function Decode(blobs: seq<bytes>, names: Option<set<bytes>>): Option<seq<Package>> {
    if blobs == [] then Some([])
    else match Parse(blobs[0])
      case None => None
      case Some(p) => Prefix(if Wanted(names, p) then [p] else [], Decode(blobs[1..], names))
  }

  function Prefix(ps: seq<Package>, rest: Option<seq<Package>>): Option<seq<Package>> {
    match rest case None => None case Some(qs) => Some(ps + qs)
  }

  function ReadDatabase(backend: Backend, file: bytes, size: nat, names: Option<set<bytes>>): Result {
    var run := Reader(backend, file, size);
    match Decode(run.blobs, names)
    case None => Failed
    case Some(ps) => Conclude(run.end, run.blobs == [], ps)
  }

  // How the read ends once all that was yielded has been decoded.
  function Conclude(end: End, empty: bool, ps: seq<Package>): Result {
    match end
    case Corrupt => Failed
    case Crashed => Crash
    case Complete => if empty then Failed else Packages(ps)
  }

  /** Reads the whole database. */
  method ReadRpmdbBlobs(backend: Backend, file: bytes, size: nat, names: Option<set<bytes>>) returns (r: Result)
    ensures r == ReadDatabase(backend, file, size, names)
  {
    hide Decode;
    var run;
    match backend {
      case BdbBackend => run := BerkeleyDb.IterBdbHashValues(file, size);
      case NdbBackend(zlib) => run := Ndb.IterNdbBlobs(file, size, zlib);
    }
    var out := DecodeBlobs(run.blobs, names);
    if out == None {
      return Failed;
    }
    r := Conclude(run.end, run.blobs == [], out.value);
  }

  /** The loop over what the reader yields. */
  method DecodeBlobs(blobs: seq<bytes>, names: Option<set<bytes>>) returns (r: Option<seq<Package>>)
    ensures r == Decode(blobs, names)
  {
    hide Parse, Prefix;
    var out: seq<Package> := [];
    var count := 0;
    PrefixTwice([], [], Decode(blobs, names));
    assert blobs[0..] == blobs;
    while count < |blobs|
      invariant count <= |blobs|
      invariant Decode(blobs, names) == Prefix(out, Decode(blobs[count..], names))
    {
      DecodeStep(blobs, count, names);
      var p := Parse(blobs[count]);
      count := count + 1;
      PrefixTwice(out, [], None);
      if p == None {
        return None;
      }
      PrefixTwice(out, if Wanted(names, p.value) then [p.value] else [], Decode(blobs[count..], names));
      if Wanted(names, p.value) {
        out := out + [p.value];
      } else {
        assert out + [] == out;
      }
    }
    PrefixTwice(out, [], None);
    r := Some(out);
  }

  lemma {:induction false} DecodeStep(blobs: seq<bytes>, i: nat, names: Option<set<bytes>>)
    requires i < |blobs|
    ensures Decode(blobs[i..], names) ==
            match Parse(blobs[i])
            case None => None
            case Some(p) => Prefix(if Wanted(names, p) then [p] else [], Decode(blobs[i + 1..], names))
  {
    hide Parse, Prefix;
    assert blobs[i..][1..] == blobs[i + 1..];
  }

  lemma {:induction false} PrefixTwice(a: seq<Package>, b: seq<Package>, rest: Option<seq<Package>>)
    ensures Prefix(a, Prefix(b, rest)) == Prefix(a + b, rest)
    ensures Prefix([], rest) == rest && Prefix(a, Some([])) == Some(a) && Prefix(a, None) == None
  {
    if rest.Some? {
      assert a + (b + rest.value) == (a + b) + rest.value;
      assert [] + rest.value == rest.value;
    }
    assert a + [] == a;
  }

  // ---- A read by name ----

  ghost predicate AllComplete(ps: seq<Package>) {
    forall p | p in ps :: "name" in p && "version" in p
  }

  // All packages are asked for, or this one by its name.
  ghost predicate AskedFor(names: Option<set<bytes>>, p: Package) {
    names.None? || exists name | name in names.value :: "name" in p && p["name"] == Str(name)
  }

  ghost function Select(ps: seq<Package>, names: Option<set<bytes>>): seq<Package> {
    if ps == [] then [] else (if AskedFor(names, ps[0]) then [ps[0]] else []) + Select(ps[1..], names)
  }

  lemma {:induction false} WantedIs(names: Option<set<bytes>>, p: Package)
    requires HasNameAndVersion(p)
    ensures Wanted(names, p) <==> AskedFor(names, p)
  {
  }

  lemma {:induction false} DecodeAll(blobs: seq<bytes>)
    ensures var all := Decode(blobs, None);
            all.Some? ==> |all.value| == |blobs| && AllComplete(all.value)
                          && forall i | 0 <= i < |blobs| :: Parse(blobs[i]) == Some(all.value[i])
    ensures Decode(blobs, None).None? ==> exists i :: 0 <= i < |blobs| && Parse(blobs[i]) == None
    decreases |blobs|
  {
    hide Parse;
    if blobs != [] {
      var rest := blobs[1..];
      DecodeAll(rest);
      if Decode(rest, None).None? && Parse(blobs[0]).Some? {
        var i :| 0 <= i < |rest| && Parse(rest[i]) == None;
        assert Parse(blobs[i + 1]) == None;
      }
      var all := Decode(blobs, None);
      if all.Some? {
        var tail := Decode(rest, None).value;
        assert all.value == [Parse(blobs[0]).value] + tail;
        forall i | 0 <= i < |blobs| ensures Parse(blobs[i]) == Some(all.value[i]) {
          if i > 0 {
            assert Parse(rest[i - 1]) == Some(tail[i - 1]);
          }
        }
      }
    }
  }

  lemma {:induction false} DecodeSelects(blobs: seq<bytes>, names: Option<set<bytes>>)
    ensures var all := Decode(blobs, None);
            Decode(blobs, names) ==
            match all case None => None case Some(ps) => if AllComplete(ps) then Some(Select(ps, names)) else None
    decreases |blobs|
  {
    hide Parse, Wanted, AskedFor;
    DecodeAll(blobs);
    if blobs != [] {
      DecodeSelects(blobs[1..], names);
      DecodeAll(blobs[1..]);
      if Parse(blobs[0]).Some? && Decode(blobs[1..], None).Some? {
        var p, tail := Parse(blobs[0]).value, Decode(blobs[1..], None).value;
        WantedIs(names, p);
        assert Wanted(None, p) by { AllWanted(p); }
        assert ([p] + tail)[1..] == tail;
      }
    }
  }

  lemma {:induction false} AllWanted(p: Package)
    requires HasNameAndVersion(p)
    ensures Wanted(None, p)
  {
  }

  /** A read with names is the filter of the full read, and fails exactly when the full read does. */
  lemma {:induction false} NamedIsFiltered(backend: Backend, file: bytes, size: nat, names: Option<set<bytes>>)
    ensures match ReadDatabase(backend, file, size, None)
            case Packages(all) =>
              AllComplete(all) && ReadDatabase(backend, file, size, names) == Packages(Select(all, names))
            case other => ReadDatabase(backend, file, size, names) == other
  {
    hide Reader, Decode;
    DecodeSelects(Reader(backend, file, size).blobs, names);
    DecodeAll(Reader(backend, file, size).blobs);
  }

  /** All or nothing: a package list comes back if and only if the reader reached the end, yielded
      something, and every single blob parsed; it then holds one package per blob, in order. */
  lemma {:induction false} AllOrNothing(backend: Backend, file: bytes, size: nat)
    ensures var run, r := Reader(backend, file, size), ReadDatabase(backend, file, size, None);
            && (r.Packages? <==> run.end == Complete && run.blobs != []
                                 && forall i | 0 <= i < |run.blobs| :: Parse(run.blobs[i]).Some?)
            && (r == Crash <==> run.end == Crashed && forall i | 0 <= i < |run.blobs| :: Parse(run.blobs[i]).Some?)
            && (r.Packages? ==> |r.packages| == |run.blobs|
                                && forall i | 0 <= i < |run.blobs| :: Parse(run.blobs[i]) == Some(r.packages[i]))
  {
    hide Reader, Decode, Parse;
    DecodeAll(Reader(backend, file, size).blobs);
  }

  // ---- End to end ----

  // A header blob as the database stores it.
  datatype Header = Header(fields: seq<Field>, trailing: bytes)

  ghost predicate Storable(h: Header) {
    && AllWellTyped(h.fields) && 0 < |h.fields| < 0x1_0000 && |Data(h.fields)| < 0x1000_0000
    && "name" in Meaning(h.fields, map[]) && "version" in Meaning(h.fields, map[])
  }

  ghost predicate AllStorable(hs: seq<Header>) {
    forall i | 0 <= i < |hs| :: Storable(hs[i])
  }

  function Encodings(hs: seq<Header>): seq<bytes>
    requires AllStorable(hs)
  {
    if hs == [] then [] else [Encode(hs[0].fields) + hs[0].trailing] + Encodings(hs[1..])
  }

  function Meanings(hs: seq<Header>): seq<Package>
    requires AllStorable(hs)
  {
    if hs == [] then [] else [Meaning(hs[0].fields, map[])] + Meanings(hs[1..])
  }

  lemma {:induction false} EncodingsDecode(hs: seq<Header>)
    requires AllStorable(hs)
    ensures Decode(Encodings(hs), None) == Some(Meanings(hs))
    decreases |hs|
  {
    hide Parse, Encode, Meaning, Wanted, Data;
    if hs != [] {
      assert Storable(hs[0]);
      ParseUndoesEncode(hs[0].fields, hs[0].trailing);
      EncodingsDecode(hs[1..]);
      AllWanted(Meaning(hs[0].fields, map[]));
      assert Encodings(hs)[1..] == Encodings(hs[1..]);
    }
  }

  lemma {:induction false} EncodingsRead(backend: Backend, file: bytes, size: nat, hs: seq<Header>)
    requires AllStorable(hs) && hs != [] && Reader(backend, file, size) == Run(Encodings(hs), Complete)
    ensures ReadDatabase(backend, file, size, None) == Packages(Meanings(hs))
  {
    hide Reader, Decode;
    EncodingsDecode(hs);
  }

  /** An ndb image whose slots store encoded headers reads back as exactly those packages, in slot order. */
  lemma {:induction false} NdbEndToEnd(file: bytes, size: nat, zlib: bool, image: NdbImage.Image, hs: seq<Header>)
    requires NdbImage.IsImage(file, size, zlib, image) && AllStorable(hs) && hs != []
    requires NdbImage.Blobs(image.entries) == Encodings(hs)
    ensures ReadDatabase(NdbBackend(zlib), file, size, None) == Packages(Meanings(hs))
  {
    hide NdbImage.IsImage, Ndb.Read, Encodings, ReadDatabase;
    NdbImage.ImageReads(file, size, zlib, image);
    EncodingsRead(NdbBackend(zlib), file, size, hs);
  }

  /** A Berkeley DB hash database whose package values are encoded headers reads back as exactly those
      packages, in bucket, chain and slot order. */
  lemma {:induction false} BdbEndToEnd(file: bytes, size: nat, db: BerkeleyDbLayout.Database, hs: seq<Header>)
    requires BerkeleyDbLayout.IsDatabase(file, size, db) && AllStorable(hs) && hs != []
    requires BerkeleyDbLayout.Values(db.chains) == Encodings(hs)
    ensures ReadDatabase(BdbBackend, file, size, None) == Packages(Meanings(hs))
  {
    hide BerkeleyDb.Read, Encodings, ReadDatabase;
    BerkeleyDbLayout.DatabaseReads(file, size, db);
    EncodingsRead(BdbBackend, file, size, hs);
  }
}
