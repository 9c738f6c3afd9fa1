/** The MIT keytab reader: principals, version numbers and encryption types, never the keys. */
module Keytab {
  import opened Bytes
  import opened Options

  // The principal is the components and the realm; `enctype` is signed.
  datatype Entry = Entry(components: seq<bytes>, realm: bytes, kvno: nat, enctype: int)

  datatype KeytabFile = KeytabFile(version: nat, entries: seq<Entry>)

  // Version 1 files are in the byte order of the machine that wrote them, taken to be that of the scanner.
  datatype Format = Format(version: nat, order: Order)

  function FormatOf(version: nat, native: Order): Format {
    Format(version, if version == 2 then Big else native)
  }

  function Signed32(n: nat): int {
    if n < 0x8000_0000 then n else n - TWO_32
  }

  function Signed16(n: nat): int {
    if n < 0x8000 then n else n - 0x1_0000
  }

  // ---- The reader ----

  // A counted field within at..limit, and the position after it.
  function Field(data: bytes, o: Order, at: nat, limit: nat): (r: Option<(bytes, nat)>)
    requires limit <= |data|
    ensures r.Some? ==> at < r.value.1 <= limit
  {
    if at + 2 > limit then None
    else
      var n := U16(o, data, at);
      if at + 2 + n > limit then None else Some((data[at + 2..at + 2 + n], at + 2 + n))
  }

  function Fields(data: bytes, o: Order, at: nat, limit: nat, count: nat): (r: Option<(seq<bytes>, nat)>)
    requires limit <= |data|
    ensures r.Some? ==> at <= r.value.1 && |r.value.0| == count
    decreases count
  {
    if count == 0 then Some(([], at))
    else
      var (first, next) :- Field(data, o, at, limit);
      var (rest, end) :- Fields(data, o, next, limit, count - 1);
      Some(([first] + rest, end))
  }

  // What follows the components: name type (version 2), timestamp, and the key's header; the key is skipped.
  function KeyPart(data: bytes, f: Format, at0: nat, end: nat): Option<(nat, int)>
    requires end <= |data|
  {
    var at := at0 + (if f.version == 2 then 8 else 4);
    if at + 1 > end then None
    else
      var kvno8 := data[at];
      if at + 5 > end then None
      else
        var enctype, keylen := Signed16(U16(f.order, data, at + 1)), U16(f.order, data, at + 3);
        var after := at + 5 + keylen;
        if after > end then None
        else
          var kvno32 := if end - after >= 4 then U32(f.order, data, after) else 0;
          Some((if kvno32 != 0 then kvno32 else kvno8, enctype))
  }

  function ReadEntry(data: bytes, f: Format, at: nat, end: nat): Option<Entry>
    requires end <= |data|
  {
    if at + 2 > end then None
    else
      var count := U16(f.order, data, at);
      // Version 1 counts the realm as a component.
      var components := if f.version == 1 then (if count == 0 then 0 else count - 1) else count;
      var (realm, next) :- Field(data, f.order, at + 2, end);
      var (comps, after) :- Fields(data, f.order, next, end, components);
      var (kvno, enctype) :- KeyPart(data, f, after, end);
      Some(Entry(comps, realm, kvno, enctype))
  }

  function Records(data: bytes, f: Format, pos: nat): Option<seq<Entry>>
    decreases |data| - pos
  {
    if pos + 4 > |data| then Some([])
    else
      var length := Signed32(U32(f.order, data, pos));
      if length == 0 then Some([])
      else if length < 0 then Records(data, f, pos + 4 - length)
      else if pos + 4 + length > |data| then None
      else
        var entry :- ReadEntry(data, f, pos + 4, pos + 4 + length);
        var rest :- Records(data, f, pos + 4 + length);
        Some([entry] + rest)
  }

  function Parse(data: bytes, native: Order): Option<KeytabFile> {
    if |data| < 2 || data[0] != 5 || (data[1] != 1 && data[1] != 2) then None
    else
      var entries :- Records(data, FormatOf(data[1], native), 2);
      Some(KeytabFile(data[1], entries))
  }

  method ReadComponents(data: bytes, o: Order, start: nat, limit: nat, count: nat)
    returns (r: Option<(seq<bytes>, nat)>)
    requires limit <= |data|
    ensures r == Fields(data, o, start, limit, count)
  {
    hide Field, Fields, After;
    var comps: seq<bytes> := [];
    var at := start;
    var i := 0;
    AfterNothing(Fields(data, o, start, limit, count));
    while i < count
      invariant i <= count
      invariant Fields(data, o, start, limit, count) == After(comps, Fields(data, o, at, limit, count - i))
    {
      FieldsUnfold(data, o, at, limit, count - i, comps);
      var field := Field(data, o, at, limit);
      if field.None? {
        return None;
      }
      comps := comps + [field.value.0];
      at := field.value.1;
      i := i + 1;
    }
    NoFields(data, o, at, limit, comps);
    r := Some((comps, at));
  }

  // The fields already read before those still to be read.
  function After(comps: seq<bytes>, rest: Option<(seq<bytes>, nat)>): Option<(seq<bytes>, nat)> {
    match rest case None => None case Some((fs, end)) => Some((comps + fs, end))
  }

  lemma {:induction false} AfterNothing(rest: Option<(seq<bytes>, nat)>)
    ensures After([], rest) == rest
  {
    assert rest.Some? ==> [] + rest.value.0 == rest.value.0;
  }

  lemma {:induction false} NoFields(data: bytes, o: Order, at: nat, limit: nat, comps: seq<bytes>)
    requires limit <= |data|
    ensures After(comps, Fields(data, o, at, limit, 0)) == Some((comps, at))
  {
    assert comps + [] == comps;
  }

  lemma {:induction false} FieldsUnfold(data: bytes, o: Order, at: nat, limit: nat, count: nat, comps: seq<bytes>)
    requires limit <= |data| && count > 0
    ensures After(comps, Fields(data, o, at, limit, count)) ==
            match Field(data, o, at, limit)
            case None => None
            case Some((b, next)) => After(comps + [b], Fields(data, o, next, limit, count - 1))
  {
    hide Field;
    var field := Field(data, o, at, limit);
    if field.Some? {
      var rest := Fields(data, o, field.value.1, limit, count - 1);
      assert rest.Some? ==> comps + ([field.value.0] + rest.value.0) == (comps + [field.value.0]) + rest.value.0;
    }
  }

  method ReadRecord(data: bytes, f: Format, start: nat, end: nat) returns (r: Option<Entry>)
    requires end <= |data|
    ensures r == ReadEntry(data, f, start, end)
  {
    hide U16, Field, Fields, KeyPart;
    if start + 2 > end {
      return None;
    }
    var count := U16(f.order, data, start);
    if f.version == 1 && count > 0 {
      count := count - 1;
    }
    var realm :- Field(data, f.order, start + 2, end);
    var comps := ReadComponents(data, f.order, realm.1, end, count);
    if comps.None? {
      return None;
    }
    var key :- KeyPart(data, f, comps.value.1, end);
    r := Some(Entry(comps.value.0, realm.0, key.0, key.1));
  }

  /** The record loop. */
  method ParseKeytab(data: bytes, native: Order) returns (r: Option<KeytabFile>)
    ensures r == Parse(data, native)
  {
    hide U32, ReadEntry;
    if |data| < 2 || data[0] != 5 || (data[1] != 1 && data[1] != 2) {
      return None;
    }
    var f := FormatOf(data[1], native);
    var entries: seq<Entry> := [];
    var pos := 2;
    ghost var whole := Records(data, f, 2);
    assert whole.Some? ==> [] + whole.value == whole.value;
    while pos + 4 <= |data|
      invariant whole == match Records(data, f, pos) case None => None case Some(rest) => Some(entries + rest)
      decreases |data| - pos
    {
      var length := Signed32(U32(f.order, data, pos));
      if length == 0 {
        break;
      }
      if length < 0 {
        pos := pos + 4 - length;
        continue;
      }
      var end := pos + 4 + length;
      if end > |data| {
        return None;
      }
      var entry := ReadRecord(data, f, pos + 4, end);
      if entry.None? {
        return None;
      }
      ghost var rest := Records(data, f, end);
      if rest.Some? {
        assert entries + ([entry.value] + rest.value) == (entries + [entry.value]) + rest.value;
      }
      entries := entries + [entry.value];
      pos := end;
    }
    assert entries + [] == entries;
    r := Some(KeytabFile(data[1], entries));
  }
}
