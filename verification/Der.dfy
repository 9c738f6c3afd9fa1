/** DER elements and object identifiers: the readers, and the encoders they invert. */
module Der {
  import opened Bytes
  import opened Options

  const SEQUENCE: byte := 0x30
  const SET: byte := 0x31
  const OID: byte := 0x06
  const INTEGER: byte := 0x02
  const BOOLEAN: byte := 0x01
  const BIT_STRING: byte := 0x03
  const OCTET_STRING: byte := 0x04

  // An element's tag and where its value lies.
  datatype Tlv = Tlv(tag: byte, start: nat, stop: nat)

  // int.from_bytes(s, "big")
  function BigEndian(s: bytes): nat {
    if s == [] then 0 else BigEndian(s[..|s| - 1]) * 0x100 + s[|s| - 1]
  }

  /** One element at buf[pos..end]: refused unless it lies inside; otherwise it strictly advances. */
  function ReadTlv(buf: bytes, pos: nat, end: nat): (r: Option<Tlv>)
    requires end <= |buf|
    ensures r.Some? ==> pos + 2 <= r.value.start <= r.value.stop <= end && r.value.tag == buf[pos]
  {
    if pos + 2 > end then None
    else if buf[pos] % 0x20 == 0x1F then None
    else
      var first := buf[pos + 1];
      if first < 0x80 then
        if pos + 2 + first > end then None else Some(Tlv(buf[pos], pos + 2, pos + 2 + first))
      else
        var n := first - 0x80;
        if n == 0 || n > 4 || pos + 2 + n > end then None
        else
          var start := pos + 2 + n;
          var length := BigEndian(buf[pos + 2..start]);
          if start + length > end then None else Some(Tlv(buf[pos], start, start + length))
  }

  // ---- Encoding elements ----

  function Pow256(k: nat): nat {
    if k == 0 then 1 else 0x100 * Pow256(k - 1)
  }

  // n in k base-256 digits.
  function Digits(n: nat, k: nat): (s: bytes)
    requires n < Pow256(k)
    ensures |s| == k && BigEndian(s) == n
  {
    if k == 0 then []
    else
      var s := Digits(n / 0x100, k - 1) + [n % 0x100];
      assert s[..k - 1] == Digits(n / 0x100, k - 1);
      s
  }

  // An element to encode; `form` is 0 for the short length form, else the number of length bytes.
  datatype Element = Element(tag: byte, form: nat, value: bytes)

  predicate Encodable(e: Element) {
    && e.tag % 0x20 != 0x1F
    && if e.form == 0 then |e.value| < 0x80 else e.form <= 4 && |e.value| < Pow256(e.form)
  }

  function Head(e: Element): bytes
    requires Encodable(e)
  {
    if e.form == 0 then [e.tag, |e.value|] else [e.tag, 0x80 + e.form] + Digits(|e.value|, e.form)
  }

  function Encode(e: Element): bytes
    requires Encodable(e)
  {
    Head(e) + e.value
  }

  /** Reading inverts definite-length encoding, in the short form and in every long form of up to four
      length bytes, minimal or not. */
  lemma {:induction false} ReadInvertsEncode(buf: bytes, pos: nat, end: nat, e: Element)
    requires Encodable(e) && end <= |buf| && Lies(buf, pos, Encode(e)) && pos + |Encode(e)| <= end
    ensures var start := pos + |Head(e)|;
            && ReadTlv(buf, pos, end) == Some(Tlv(e.tag, start, start + |e.value|))
            && Lies(buf, start, e.value)
  {
    hide BigEndian, Pow256, Digits;
    LiesSplit(buf, pos, Head(e), e.value);
    var h := buf[pos..pos + |Head(e)|];
    assert h[0] == buf[pos] && h[1] == buf[pos + 1];
    if e.form > 0 {
      assert h[2..] == Digits(|e.value|, e.form);
      assert h[2..] == buf[pos + 2..pos + 2 + e.form];
    }
  }

  /** What was read was encoded so: reading accepts nothing but definite-length encodings. */
  lemma {:induction false} ReadMeansEncoded(buf: bytes, pos: nat, end: nat) returns (e: Element)
    requires end <= |buf| && ReadTlv(buf, pos, end).Some?
    ensures var t := ReadTlv(buf, pos, end).value;
            && Encodable(e) && e.tag == t.tag && e.value == buf[t.start..t.stop]
            && Encode(e) == buf[pos..t.stop]
  {
    var t := ReadTlv(buf, pos, end).value;
    var first := buf[pos + 1];
    var form := if first < 0x80 then 0 else first - 0x80;
    e := Element(t.tag, form, buf[t.start..t.stop]);
    if form > 0 {
      var s := buf[pos + 2..t.start];
      DigitsOfBigEndian(s);
    }
    hide BigEndian, Pow256, Digits;
    ThreeParts(buf, pos, t.start, t.stop);
  }

  lemma {:induction false} ThreeParts(buf: bytes, pos: nat, start: nat, stop: nat)
    requires pos + 2 <= start <= stop <= |buf|
    ensures buf[pos..stop] == [buf[pos], buf[pos + 1]] + buf[pos + 2..start] + buf[start..stop]
  {
  }

  lemma {:induction false} DigitsOfBigEndian(s: bytes)
    ensures BigEndian(s) < Pow256(|s|) && Digits(BigEndian(s), |s|) == s
    decreases |s|
  {
    if s != [] {
      var k := |s| - 1;
      var hi := BigEndian(s[..k]);
      DigitsOfBigEndian(s[..k]);
      assert (hi * 0x100 + s[k]) / 0x100 == hi && (hi * 0x100 + s[k]) % 0x100 == s[k];
      assert s == s[..k] + [s[k]];
    }
  }

  // ---- Object identifiers ----

  type Oid = seq<nat>

  // The arcs of base-128 groups, with `n` the value of the group read so far.
  function Arcs(s: bytes, n: nat): seq<nat> {
    if s == [] then []
    else
      var m := n * 0x80 + s[0] % 0x80;
      if s[0] < 0x80 then [m] + Arcs(s[1..], 0) else Arcs(s[1..], m)
  }

  function DecodeOid(value: bytes): Option<Oid> {
    if value == [] || value[|value| - 1] >= 0x80 || value[0] >= 0x80 then None
    else
      var top := if value[0] / 40 < 2 then value[0] / 40 else 2;
      Some([top, value[0] - 40 * top] + Arcs(value[1..], 0))
  }

  method ReadOid(value: bytes) returns (r: Option<Oid>)
    ensures r == DecodeOid(value)
  {
    if value == [] || value[|value| - 1] >= 0x80 {
      return None;
    }
    var first: nat := value[0];
    if first >= 0x80 {
      return None;
    }
    var top := if first / 40 < 2 then first / 40 else 2;
    var arcs: Oid := [top, first - 40 * top];
    ghost var whole := arcs + Arcs(value[1..], 0);
    var n: nat, i: nat := 0, 1;
    while i < |value|
      invariant 1 <= i <= |value|
      invariant arcs + Arcs(value[i..], n) == whole
    {
      var b: nat := value[i];
      assert value[i..][1..] == value[i + 1..];
      ghost var before := arcs;
      n := n * 0x80 + b % 0x80;
      if b < 0x80 {
        arcs := arcs + [n];
        assert before + ([n] + Arcs(value[i + 1..], 0)) == arcs + Arcs(value[i + 1..], 0);
        n := 0;
      }
      i := i + 1;
    }
    assert arcs + [] == arcs;
    r := Some(arcs);
  }

  // The high groups of an arc, every byte marked as continued.
  function HighGroups(n: nat): bytes {
    if n == 0 then [] else HighGroups(n / 0x80) + [0x80 + n % 0x80]
  }

  function EncodeArc(n: nat): bytes {
    HighGroups(n / 0x80) + [n % 0x80]
  }

  function EncodeArcs(arcs: seq<nat>): bytes {
    if arcs == [] then [] else EncodeArc(arcs[0]) + EncodeArcs(arcs[1..])
  }

  predicate EncodableOid(o: Oid) {
    |o| >= 2 && o[0] <= 2 && (o[0] < 2 ==> o[1] < 40) && 40 * o[0] + o[1] < 0x80
  }

  function EncodeOid(o: Oid): bytes
    requires EncodableOid(o)
  {
    [40 * o[0] + o[1]] + EncodeArcs(o[2..])
  }

  lemma {:induction false} HighGroupsRead(n: nat, rest: bytes)
    ensures Arcs(HighGroups(n) + rest, 0) == Arcs(rest, n)
    decreases n
  {
    if n == 0 {
      assert [] + rest == rest;
    } else {
      var last: byte := 0x80 + n % 0x80;
      assert HighGroups(n) + rest == HighGroups(n / 0x80) + ([last] + rest);
      HighGroupsRead(n / 0x80, [last] + rest);
      assert ([last] + rest)[1..] == rest;
      assert last % 0x80 == n % 0x80;
      assert n == n / 0x80 * 0x80 + n % 0x80;
    }
  }

  lemma {:induction false} ArcsRead(arcs: seq<nat>)
    ensures Arcs(EncodeArcs(arcs), 0) == arcs
    ensures arcs != [] ==> EncodeArcs(arcs) != [] && EncodeArcs(arcs)[|EncodeArcs(arcs)| - 1] < 0x80
    decreases |arcs|
  {
    if arcs != [] {
      var n, rest := arcs[0], EncodeArcs(arcs[1..]);
      var low: byte := n % 0x80;
      assert EncodeArcs(arcs) == HighGroups(n / 0x80) + ([low] + rest);
      HighGroupsRead(n / 0x80, [low] + rest);
      assert ([low] + rest)[1..] == rest;
      assert n / 0x80 * 0x80 + low % 0x80 == n;
      ArcsRead(arcs[1..]);
      assert arcs == [n] + arcs[1..];
      if rest != [] {
        assert EncodeArcs(arcs)[|EncodeArcs(arcs)| - 1] == rest[|rest| - 1];
      }
    }
  }

  /** Decoding inverts base-128 encoding, for every arc list whose first two arcs fit one octet. */
  lemma {:induction false} DecodeInvertsEncode(o: Oid)
    requires EncodableOid(o)
    ensures DecodeOid(EncodeOid(o)) == Some(o)
  {
    var s := EncodeOid(o);
    ArcsRead(o[2..]);
    assert s[1..] == EncodeArcs(o[2..]);
    if o[2..] != [] {
      assert s[|s| - 1] == s[1..][|s| - 2];
    }
    assert o == [o[0], o[1]] + o[2..];
  }

  // No group starts with a padding byte 0x80; `opening` is whether a group starts here.
  predicate Minimal(s: bytes, opening: bool) {
    s == [] || (!(opening && s[0] == 0x80) && Minimal(s[1..], s[0] < 0x80))
  }

  lemma {:induction false} GroupsUnfold(n: nat)
    ensures n > 0 ==> HighGroups(n) == HighGroups(n / 0x80) + [0x80 + n % 0x80]
  {
  }

  lemma {:induction false} GroupDigits(n: nat, b: byte)
    ensures var m := n * 0x80 + b % 0x80;
            && EncodeArc(m) == HighGroups(n) + [b % 0x80]
            && (b >= 0x80 && m > 0 ==> HighGroups(m) == HighGroups(n) + [b])
  {
    var m := n * 0x80 + b % 0x80;
    assert m / 0x80 == n && m % 0x80 == b % 0x80;
    assert b >= 0x80 ==> 0x80 + b % 0x80 == b;
    hide HighGroups;
    GroupsUnfold(m);
  }

  lemma {:induction false} ArcsCons(m: nat, rest: seq<nat>)
    ensures EncodeArcs([m] + rest) == EncodeArc(m) + EncodeArcs(rest)
  {
    hide EncodeArc;
    assert ([m] + rest)[1..] == rest;
  }

  // The last group of an arc.
  lemma {:induction false} LastGroup(s: bytes, n: nat)
    requires s != [] && s[0] < 0x80
    ensures EncodeArcs(Arcs(s, n)) == HighGroups(n) + [s[0]] + EncodeArcs(Arcs(s[1..], 0))
  {
    GroupDigits(n, s[0]);
    ArcsCons(n * 0x80 + s[0] % 0x80, Arcs(s[1..], 0));
    hide HighGroups, EncodeArc, EncodeArcs;
  }

  // Any group before it.
  lemma {:induction false} HighGroup(s: bytes, n: nat)
    requires s != [] && s[0] >= 0x80 && !(n == 0 && s[0] == 0x80)
    ensures var m := n * 0x80 + s[0] % 0x80;
            && EncodeArcs(Arcs(s, n)) == EncodeArcs(Arcs(s[1..], m)) && HighGroups(m) == HighGroups(n) + [s[0]]
            && (m == 0 <==> n == 0 && s[0] == 0x80)
  {
    GroupDigits(n, s[0]);
    hide HighGroups, EncodeArc, EncodeArcs;
  }

  lemma {:induction false} ArcsEncode(s: bytes, n: nat)
    requires s != [] && s[|s| - 1] < 0x80 && Minimal(s, n == 0)
    ensures EncodeArcs(Arcs(s, n)) == HighGroups(n) + s
    decreases |s|
  {
    var b, rest := s[0], s[1..];
    NothingEncoded();
    NoGroups();
    hide HighGroups, EncodeArc, EncodeArcs, Arcs;
    Rejoin(HighGroups(n), s);
    if b < 0x80 {
      LastGroup(s, n);
      if rest != [] {
        ArcsEncode(rest, 0);
      }
    } else {
      HighGroup(s, n);
      ArcsEncode(rest, n * 0x80 + b % 0x80);
    }
  }

  lemma {:induction false} Rejoin(a: bytes, s: bytes)
    requires s != []
    ensures a + [s[0]] + s[1..] == a + s && [] + s[1..] == s[1..] && (s[1..] == [] ==> a + [s[0]] + [] == a + s)
  {
    assert s == [s[0]] + s[1..];
  }

  lemma {:induction false} NoGroups()
    ensures HighGroups(0) == []
  {
  }

  lemma {:induction false} EncodedIsMinimal(arcs: seq<nat>)
    ensures Minimal(EncodeArcs(arcs), true)
    decreases |arcs|
  {
    if arcs != [] {
      var n, rest := arcs[0], EncodeArcs(arcs[1..]);
      var tail: bytes := [n % 0x80] + rest;
      EncodedIsMinimal(arcs[1..]);
      assert tail[1..] == rest;
      GroupsAreMinimal(n / 0x80, tail);
      assert EncodeArcs(arcs) == HighGroups(n / 0x80) + tail;
    }
  }

  lemma {:induction false} GroupsAreMinimal(n: nat, tail: bytes)
    requires Minimal(tail, false) && (n == 0 ==> Minimal(tail, true))
    ensures Minimal(HighGroups(n) + tail, true)
    decreases n
  {
    if n == 0 {
      assert [] + tail == tail;
    } else {
      var last: byte := 0x80 + n % 0x80;
      assert ([last] + tail)[1..] == tail;
      assert HighGroups(n) + tail == HighGroups(n / 0x80) + ([last] + tail);
      GroupsAreMinimal(n / 0x80, [last] + tail);
    }
  }

  lemma {:induction false} NothingEncoded()
    ensures Arcs([], 0) == [] && EncodeArcs([]) == []
  {
  }

  /** Encoding what was decoded gives the same bytes back exactly when no arc was padded. */
  lemma {:induction false} EncodeInvertsDecodeIffMinimal(value: bytes)
    requires DecodeOid(value).Some?
    ensures EncodableOid(DecodeOid(value).value)
    ensures EncodeOid(DecodeOid(value).value) == value <==> Minimal(value[1..], true)
  {
    hide EncodeArcs, Arcs, Minimal;
    var o := DecodeOid(value).value;
    assert o[2..] == Arcs(value[1..], 0);
    assert value == [value[0]] + value[1..];
    EncodedIsMinimal(o[2..]);
    assert EncodeOid(o)[1..] == EncodeArcs(o[2..]);
    assert EncodeOid(o)[0] == value[0];
    NothingEncoded();
    if Minimal(value[1..], true) && value[1..] != [] {
      assert value[1..][|value| - 2] == value[|value| - 1];
      ArcsEncode(value[1..], 0);
      NoGroups();
      assert [] + value[1..] == value[1..];
    }
  }
}
