/**
  The X.509 readers: the walk that only finds the two algorithm OIDs, and the full parse.

  A reader that can only fail with DERError returns an option.  Others can also fail with a plain ValueError,
  which DERError is a subclass of: the year of a UTCTime goes to `int` unguarded, and newer Pythons refuse to
  write out an arc of an OID that has too many decimal digits.
 */
module Certificates {
  import opened Bytes
  import opened Options
  import opened Der

  const VERSION_TAG: byte := 0xA0     // [0] EXPLICIT
  const EXTENSIONS_TAG: byte := 0xA3  // [3] EXPLICIT

  const UTC_TIME: byte := 0x17
  const GENERALIZED_TIME: byte := 0x18

  const EC_KEY: Oid := [1, 2, 840, 10045, 2, 1]
  const BASIC_CONSTRAINTS: Oid := [2, 5, 29, 19]

  // Python takes no lower limit on the digits it writes out; 4300 is its default.
  type DigitLimit = n: nat | n >= 640 witness 4300

  // What the parse takes from elsewhere: the calendar (strptime of "%Y%m%d%H%M%S"), name rendering, and the
  // OID catalogues.  The names and sizes of keys and curves have the dotted OID for those not listed.
  // `maxDigits` is how many decimal digits Python writes out, None for any number.
  datatype Rules = Rules(calendar: string -> Option<string>, maxDigits: Option<DigitLimit>, render: Name -> string,
                         algorithm: Oid -> (string, Option<nat>), curve: Oid -> (string, Option<nat>))

  // What a call comes to: a value, a DERError, or a plain ValueError.
  datatype Outcome<+T> = Done(value: T) | DerError | ValueError {
    predicate IsFailure() {
      !Done?
    }

    function PropagateFailure<U>(): Outcome<U>
      requires !Done?
    {
      if DerError? then DerError else ValueError
    }

    function Extract(): T
      requires Done?
    {
      value
    }
  }

  function Need<T>(o: Option<T>): Outcome<T> {
    match o case None => DerError case Some(x) => Done(x)
  }

  // ---- Object identifiers ----

  // The number of decimal digits.
  function Decimals(n: nat): nat {
    if n < 10 then 1 else 1 + Decimals(n / 10)
  }

  // Python writes out every arc.
  predicate Writable(rules: Rules, oid: Oid) {
    rules.maxDigits.None? || forall i | 0 <= i < |oid| :: Decimals(oid[i]) <= rules.maxDigits.value
  }

  // The contents of an OBJECT IDENTIFIER, in dotted form.
  function OidText(rules: Rules, value: bytes): Outcome<Oid> {
    match DecodeOid(value)
    case None => DerError
    case Some(oid) => if Writable(rules, oid) then Done(oid) else ValueError
  }

  // ---- The walk ----

  // An AlgorithmIdentifier: its OID, and the position after it.
  function AlgorithmOid(rules: Rules, buf: bytes, pos: nat, end: nat): (r: Outcome<(Oid, nat)>)
    requires end <= |buf|
    ensures r.Done? ==> pos < r.value.1 <= end
  {
    var s :- Need(ReadTlv(buf, pos, end));
    if s.tag != SEQUENCE then DerError
    else
      var o :- Need(ReadTlv(buf, s.start, s.stop));
      if o.tag != OID then DerError
      else
        var oid :- OidText(rules, buf[o.start..o.stop]);
        Done((oid, s.stop))
  }

  // The position after one element, whatever it is.
  function Skip(buf: bytes, pos: nat, end: nat): (r: Option<nat>)
    requires end <= |buf|
    ensures r.Some? ==> pos < r.value <= end
  {
    var t :- ReadTlv(buf, pos, end);
    Some(t.stop)
  }

  function SkipVersion(buf: bytes, pos: nat, end: nat): (r: Option<nat>)
    requires pos <= end <= |buf|
    ensures r.Some? ==> pos <= r.value <= end
  {
    if pos < end && buf[pos] == VERSION_TAG then Skip(buf, pos, end) else Some(pos)
  }

  // The body of tbsCertificate.
  function OpenTbs(der: bytes): (r: Option<Tlv>)
    ensures r.Some? ==> r.value.start <= r.value.stop <= |der|
  {
    var c :- ReadTlv(der, 0, |der|);
    if c.tag != SEQUENCE then None
    else
      var t :- ReadTlv(der, c.start, c.stop);
      if t.tag != SEQUENCE then None else Some(t)
  }

  // Signature algorithm and key algorithm.
  datatype Oids = Oids(signature: Oid, key: Oid)

  function CertAlgorithmOids(rules: Rules, der: bytes): Outcome<Oids> {
    var tbs :- Need(OpenTbs(der));
    var end := tbs.stop;
    var serial :- Need(SkipVersion(der, tbs.start, end));
    var algorithm :- Need(Skip(der, serial, end));
    var (signature, issuer) :- AlgorithmOid(rules, der, algorithm, end);
    var validity :- Need(Skip(der, issuer, end));
    var subject :- Need(Skip(der, validity, end));
    var spki :- Need(Skip(der, subject, end));
    var s :- Need(ReadTlv(der, spki, end));
    if s.tag != SEQUENCE then DerError
    else
      var (key, _) :- AlgorithmOid(rules, der, s.start, s.stop);
      Done(Oids(signature, key))
  }

  datatype Category = Classical | HybridComposite | PurePqc

  // The arcs of the composite ML-DSA signatures, and of ML-DSA and SLH-DSA.
  const COMPOSITE_ARC: Oid := [1, 3, 6, 1, 5, 5, 7, 6]
  const PQC_ARC: Oid := [2, 16, 840, 1, 101, 3, 4, 3]

  predicate IsComposite(oid: Oid) {
    |oid| == 9 && oid[..8] == COMPOSITE_ARC && 37 <= oid[8] <= 54
  }

  predicate IsPqc(oid: Oid) {
    |oid| == 9 && oid[..8] == PQC_ARC && 17 <= oid[8] <= 31
  }

  function Categorise(oids: Oids): Category {
    if IsComposite(oids.signature) || IsComposite(oids.key) then HybridComposite
    else if IsPqc(oids.signature) || IsPqc(oids.key) then PurePqc
    else Classical
  }

  // The OIDs 1.3.6.1.5.5.7.6.37 to 1.3.6.1.5.5.7.6.54.
  ghost predicate NamesComposite(oid: Oid) {
    exists leaf | 37 <= leaf <= 54 :: oid == [1, 3, 6, 1, 5, 5, 7, 6] + [leaf]
  }

  // The OIDs 2.16.840.1.101.3.4.3.17 to 2.16.840.1.101.3.4.3.31.
  ghost predicate NamesPqc(oid: Oid) {
    exists leaf | 17 <= leaf <= 31 :: oid == [2, 16, 840, 1, 101, 3, 4, 3] + [leaf]
  }

  // A composite OID decides, then a post-quantum one.
  ghost predicate IsCategory(signature: Oid, key: Oid, c: Category) {
    && (c == HybridComposite <==> NamesComposite(signature) || NamesComposite(key))
    && (c == PurePqc <==> !NamesComposite(signature) && !NamesComposite(key) && (NamesPqc(signature) || NamesPqc(key)))
    && (c == Classical <==>
          !NamesComposite(signature) && !NamesComposite(key) && !NamesPqc(signature) && !NamesPqc(key))
  }

  lemma {:induction false} ListedIs(oid: Oid)
    ensures IsComposite(oid) <==> NamesComposite(oid)
    ensures IsPqc(oid) <==> NamesPqc(oid)
  {
    if |oid| == 9 {
      assert oid == oid[..8] + [oid[8]];
    }
  }

  /** The category of a certificate by the ranges of the two OIDs. */
  lemma {:induction false} CategoryMeans(oids: Oids)
    ensures IsCategory(oids.signature, oids.key, Categorise(oids))
  {
    ListedIs(oids.signature);
    ListedIs(oids.key);
    hide IsComposite, IsPqc, NamesComposite, NamesPqc;
  }

  // ---- The full parse ----

  datatype Attribute = Attribute(oid: Oid, tag: byte, value: bytes)

  // Relative distinguished names, in the order they are encoded.
  type Name = seq<seq<Attribute>>

  // One AttributeTypeAndValue, and the position after it.
  function ReadAttribute(rules: Rules, buf: bytes, pos: nat, end: nat): (r: Outcome<(Attribute, nat)>)
    requires end <= |buf|
    ensures r.Done? ==> pos < r.value.1 <= end
  {
    var a :- Need(ReadTlv(buf, pos, end));
    if a.tag != SEQUENCE then DerError
    else
      var o :- Need(ReadTlv(buf, a.start, a.stop));
      if o.tag != OID then DerError
      else
        var oid :- OidText(rules, buf[o.start..o.stop]);
        var v :- Need(ReadTlv(buf, o.stop, a.stop));
        Done((Attribute(oid, v.tag, buf[v.start..v.stop]), a.stop))
  }

  function ReadAttributes(rules: Rules, buf: bytes, pos: nat, end: nat): Outcome<seq<Attribute>>
    requires pos <= end <= |buf|
    decreases end - pos
  {
    if pos == end then Done([])
    else
      var (a, next) :- ReadAttribute(rules, buf, pos, end);
      var rest :- ReadAttributes(rules, buf, next, end);
      Done([a] + rest)
  }

  function ReadName(rules: Rules, buf: bytes, pos: nat, end: nat): Outcome<Name>
    requires pos <= end <= |buf|
    decreases end - pos
  {
    if pos == end then Done([])
    else
      var s :- Need(ReadTlv(buf, pos, end));
      if s.tag != SET then DerError
      else
        var rdn :- ReadAttributes(rules, buf, s.start, s.stop);
        var rest :- ReadName(rules, buf, s.stop, end);
        Done([rdn] + rest)
  }

  // ---- Times ----

  // value.decode("ascii", "replace")
  function Ascii(value: bytes): string {
    if value == [] then []
    else [if value[0] < 0x80 then value[0] as char else '\U{FFFD}'] + Ascii(value[1..])
  }

  predicate IsDigit(c: char) {
    '0' <= c <= '9'
  }

  // The white space `int` strips from an ASCII text.
  predicate IsBlank(c: char) {
    9 <= c as int <= 13 || c == ' '
  }

  // int(s) for a text of at most two characters.
  function ShortInt(s: string): Option<int> {
    if s == "" then None
    else if IsBlank(s[0]) then ShortInt(s[1..])
    else if IsBlank(s[|s| - 1]) then ShortInt(s[..|s| - 1])
    else if |s| == 1 && IsDigit(s[0]) then Some(s[0] as int - '0' as int)
    else if |s| == 2 && IsDigit(s[1]) then
      var unit := s[1] as int - '0' as int;
      if IsDigit(s[0]) then Some(10 * (s[0] as int - '0' as int) + unit)
      else if s[0] == '+' then Some(unit)
      else if s[0] == '-' then Some(-unit)
      else None
    else None
  }

  function First(s: string, n: nat): string {
    if |s| <= n then s else s[..n]
  }

  function DerTime(rules: Rules, tag: byte, value: bytes): Outcome<string> {
    var text := Ascii(value);
    if text == "" || text[|text| - 1] != 'Z' then DerError
    else if tag == UTC_TIME then
      match ShortInt(First(text, 2))
      case None => ValueError
      case Some(yy) => Need(rules.calendar(First((if yy >= 50 then "19" else "20") + text, 14)))
    else if tag != GENERALIZED_TIME then DerError
    else Need(rules.calendar(First(text, 14)))
  }

  // ---- Keys ----

  // The catalogue's name and size of the algorithm, or those of the curve, or the size of the modulus.
  datatype Key = Key(oid: Oid, name: string, size: Option<nat>)

  predicate IsRsa(name: string) {
    name == "RSA" || name == "RSASSA-PSS"
  }

  // The first element of the key's AlgorithmIdentifier; unlike the walk, its tag is not checked.
  function SpkiOidElement(buf: bytes, start: nat, stop: nat): (r: Option<(Tlv, Tlv)>)
    requires stop <= |buf|
    ensures r.Some? ==> start < r.value.0.stop <= stop
                         && r.value.1.stop <= r.value.0.stop && r.value.1.start <= r.value.1.stop
  {
    var a :- ReadTlv(buf, start, stop);
    if a.tag != SEQUENCE then None
    else
      var o :- ReadTlv(buf, a.start, a.stop);
      Some((a, o))
  }

  // The key named after the curve, if there is one.
  function CurveKey(rules: Rules, key: Key, buf: bytes, pos: nat, end: nat): (r: Outcome<Key>)
    requires end <= |buf|
    ensures r.Done? ==> r.value.oid == key.oid
  {
    var p :- Need(ReadTlv(buf, pos, end));
    if p.tag != OID then Done(key)
    else
      var curve :- OidText(rules, buf[p.start..p.stop]);
      Done(Key(key.oid, "EC " + rules.curve(curve).0, rules.curve(curve).1))
  }

  function IntBits(value: bytes): nat {
    BitLength(BigEndian(value))
  }

  // The key with the size of its modulus, if there is one.
  function RsaKey(key: Key, buf: bytes, pos: nat, end: nat): (r: Option<Key>)
    requires end <= |buf|
    ensures r.Some? ==> r.value.oid == key.oid
  {
    var b :- ReadTlv(buf, pos, end);
    if b.tag != BIT_STRING || b.start >= b.stop then Some(key)
    else
      var r :- ReadTlv(buf, b.start + 1, b.stop);
      if r.tag != SEQUENCE then Some(key)
      else
        var m :- ReadTlv(buf, r.start, r.stop);
        Some(if m.tag == INTEGER then key.(size := Some(IntBits(buf[m.start..m.stop]))) else key)
  }

  function SpkiKey(rules: Rules, buf: bytes, start: nat, stop: nat): Outcome<Key>
    requires stop <= |buf|
  {
    var (a, o) :- Need(SpkiOidElement(buf, start, stop));
    var oid :- OidText(rules, buf[o.start..o.stop]);
    var key := Key(oid, rules.algorithm(oid).0, rules.algorithm(oid).1);
    if oid == EC_KEY && o.stop < a.stop then CurveKey(rules, key, buf, o.stop, a.stop)
    else if IsRsa(key.name) then Need(RsaKey(key, buf, a.stop, stop))
    else Done(key)
  }

  type Extensions = map<Oid, bytes>

  // One Extension added to those read so far, and the position after it.
  function ReadExtension(rules: Rules, buf: bytes, pos: nat, end: nat, out: Extensions): (r: Outcome<(Extensions, nat)>)
    requires end <= |buf|
    ensures r.Done? ==> pos < r.value.1 <= end
  {
    var e :- Need(ReadTlv(buf, pos, end));
    var o :- Need(ReadTlv(buf, e.start, e.stop));
    var oid :- OidText(rules, buf[o.start..o.stop]);
    var first :- Need(ReadTlv(buf, o.stop, e.stop));
    var n :- Need(if first.tag == BOOLEAN then ReadTlv(buf, first.stop, e.stop) else Some(first));
    Done((if n.tag == OCTET_STRING then out[oid := buf[n.start..n.stop]] else out, e.stop))
  }

  function ReadExtensionList(rules: Rules, buf: bytes, pos: nat, end: nat, out: Extensions): Outcome<Extensions>
    requires pos <= end <= |buf|
    decreases end - pos
  {
    if pos == end then Done(out)
    else
      var (out1, next) :- ReadExtension(rules, buf, pos, end, out);
      ReadExtensionList(rules, buf, next, end, out1)
  }

  function ReadExtensions(rules: Rules, buf: bytes, start: nat, stop: nat): Outcome<Extensions>
    requires stop <= |buf|
  {
    var s :- Need(ReadTlv(buf, start, stop));
    if s.tag != SEQUENCE then DerError else ReadExtensionList(rules, buf, s.start, s.stop, map[])
  }

  // What follows the key in tbsCertificate: unique identifiers and extensions, the last ones winning.
  function ReadTail(rules: Rules, buf: bytes, pos: nat, end: nat, exts: Extensions): Outcome<Extensions>
    requires pos <= end <= |buf|
    decreases end - pos
  {
    if pos == end then Done(exts)
    else
      var e :- Need(ReadTlv(buf, pos, end));
      var exts1 :- if e.tag == EXTENSIONS_TAG then ReadExtensions(rules, buf, e.start, e.stop) else Done(exts);
      ReadTail(rules, buf, e.stop, end, exts1)
  }

  function IsCa(exts: Extensions): Option<bool> {
    if BASIC_CONSTRAINTS !in exts || exts[BASIC_CONSTRAINTS] == [] then Some(false)
    else
      var bc := exts[BASIC_CONSTRAINTS];
      var s :- ReadTlv(bc, 0, |bc|);
      if s.tag != SEQUENCE || s.start >= s.stop then Some(false)
      else
        var b :- ReadTlv(bc, s.start, s.stop);
        Some(b.tag == BOOLEAN && b.stop > b.start && bc[b.start] != 0)
  }

  datatype Certificate = Certificate(
    serial: bytes, issuer: Name, subject: Name, notBefore: string, notAfter: string,
    signature: Oid, key: Key, category: Category, isCa: bool, selfSigned: bool, roleIsCa: bool)

  // An element that must be a SEQUENCE.
  function Sequence(buf: bytes, pos: nat, end: nat): (r: Option<Tlv>)
    requires end <= |buf|
    ensures r.Some? ==> pos + 2 <= r.value.start <= r.value.stop <= end
  {
    var t :- ReadTlv(buf, pos, end);
    if t.tag != SEQUENCE then None else Some(t)
  }

  function Validity(rules: Rules, buf: bytes, start: nat, stop: nat): Outcome<(string, string)>
    requires stop <= |buf|
  {
    var t1 :- Need(ReadTlv(buf, start, stop));
    var t2 :- Need(ReadTlv(buf, t1.stop, stop));
    var notBefore :- DerTime(rules, t1.tag, buf[t1.start..t1.stop]);
    var notAfter :- DerTime(rules, t2.tag, buf[t2.start..t2.stop]);
    Done((notBefore, notAfter))
  }

  function ParseCertificate(rules: Rules, der: bytes): Outcome<Certificate> {
    var tbs :- Need(OpenTbs(der));
    var end := tbs.stop;
    var pos :- Need(SkipVersion(der, tbs.start, end));
    var serial :- Need(ReadTlv(der, pos, end));
    if serial.tag != INTEGER then DerError
    else
      var (signature, afterAlgorithm) :- AlgorithmOid(rules, der, serial.stop, end);
      var i :- Need(Sequence(der, afterAlgorithm, end));
      var issuer :- ReadName(rules, der, i.start, i.stop);
      var v :- Need(Sequence(der, i.stop, end));
      var (notBefore, notAfter) :- Validity(rules, der, v.start, v.stop);
      var j :- Need(Sequence(der, v.stop, end));
      var subject :- ReadName(rules, der, j.start, j.stop);
      var k :- Need(Sequence(der, j.stop, end));
      var key :- SpkiKey(rules, der, k.start, k.stop);
      var exts :- ReadTail(rules, der, k.stop, end, map[]);
      var isCa :- Need(IsCa(exts));
      var selfSigned := rules.render(subject) == rules.render(issuer);
      Done(Certificate(der[serial.start..serial.stop], issuer, subject, notBefore, notAfter, signature, key,
                       Categorise(Oids(signature, key.oid)), isCa, selfSigned,
                       isCa || (selfSigned && BASIC_CONSTRAINTS !in exts)))
  }

  // ---- The loops of the full parse ----

  // What is read behind what was read.
  function Behind<T>(done: seq<T>, rest: Outcome<seq<T>>): Outcome<seq<T>> {
    var xs :- rest;
    Done(done + xs)
  }

  lemma {:induction false} BehindOne<T>(done: seq<T>, x: T, rest: Outcome<seq<T>>)
    ensures Behind(done, Behind([x], rest)) == Behind(done + [x], rest)
    ensures Behind([], rest) == rest && Behind(done, Done([])) == Done(done)
  {
    if rest.Done? {
      assert done + ([x] + rest.value) == (done + [x]) + rest.value;
      assert [] + rest.value == rest.value;
    }
    assert done + [] == done;
  }

  method NameLoop(rules: Rules, buf: bytes, start: nat, stop: nat) returns (r: Outcome<Name>)
    requires start <= stop <= |buf|
    ensures r == ReadName(rules, buf, start, stop)
  {
    hide ReadTlv, ReadAttributes;
    var rdns: Name := [];
    var pos := start;
    BehindOne([], [], ReadName(rules, buf, start, stop));
    while pos < stop
      invariant start <= pos <= stop
      invariant ReadName(rules, buf, start, stop) == Behind(rdns, ReadName(rules, buf, pos, stop))
    {
      var s :- Need(ReadTlv(buf, pos, stop));
      if s.tag != SET {
        return DerError;
      }
      var rdn :- AttributeLoop(rules, buf, s.start, s.stop);
      BehindOne(rdns, rdn, ReadName(rules, buf, s.stop, stop));
      rdns := rdns + [rdn];
      pos := s.stop;
    }
    BehindOne(rdns, [], Done([]));
    r := Done(rdns);
  }

  method AttributeLoop(rules: Rules, buf: bytes, start: nat, stop: nat) returns (r: Outcome<seq<Attribute>>)
    requires start <= stop <= |buf|
    ensures r == ReadAttributes(rules, buf, start, stop)
  {
    hide ReadAttribute;
    var parts: seq<Attribute> := [];
    var pos := start;
    BehindOne([], Attribute([], 0, []), ReadAttributes(rules, buf, start, stop));
    while pos < stop
      invariant start <= pos <= stop
      invariant ReadAttributes(rules, buf, start, stop) == Behind(parts, ReadAttributes(rules, buf, pos, stop))
    {
      var a :- ReadAttribute(rules, buf, pos, stop);
      BehindOne(parts, a.0, ReadAttributes(rules, buf, a.1, stop));
      parts := parts + [a.0];
      pos := a.1;
    }
    BehindOne(parts, Attribute([], 0, []), Done([]));
    r := Done(parts);
  }

  method ExtensionLoop(rules: Rules, buf: bytes, start: nat, stop: nat) returns (r: Outcome<Extensions>)
    requires stop <= |buf|
    ensures r == ReadExtensions(rules, buf, start, stop)
  {
    hide ReadTlv, ReadExtension;
    var s :- Need(ReadTlv(buf, start, stop));
    if s.tag != SEQUENCE {
      return DerError;
    }
    var out: Extensions := map[];
    var pos := s.start;
    while pos < s.stop
      invariant s.start <= pos <= s.stop
      invariant ReadExtensionList(rules, buf, pos, s.stop, out) == ReadExtensionList(rules, buf, s.start, s.stop, map[])
    {
      var e :- ReadExtension(rules, buf, pos, s.stop, out);
      out, pos := e.0, e.1;
    }
    r := Done(out);
  }

  method TailLoop(rules: Rules, buf: bytes, start: nat, stop: nat) returns (r: Outcome<Extensions>)
    requires start <= stop <= |buf|
    ensures r == ReadTail(rules, buf, start, stop, map[])
  {
    hide ReadTlv, ReadExtensions;
    var exts: Extensions := map[];
    var pos := start;
    while pos < stop
      invariant start <= pos <= stop
      invariant ReadTail(rules, buf, pos, stop, exts) == ReadTail(rules, buf, start, stop, map[])
    {
      var e :- Need(ReadTlv(buf, pos, stop));
      if e.tag == EXTENSIONS_TAG {
        exts :- ExtensionLoop(rules, buf, e.start, e.stop);
      }
      pos := e.stop;
    }
    r := Done(exts);
  }

  /** The full parse, from the loops above. */
  method ParseCertificateFields(rules: Rules, der: bytes) returns (r: Outcome<Certificate>)
    ensures r == ParseCertificate(rules, der)
  {
    hide ReadTlv, OpenTbs, SkipVersion, AlgorithmOid, Sequence, Validity, SpkiKey, ReadName, ReadTail, IsCa, Categorise;
    var tbs :- Need(OpenTbs(der));
    var end := tbs.stop;
    var pos :- Need(SkipVersion(der, tbs.start, end));
    var serial :- Need(ReadTlv(der, pos, end));
    if serial.tag != INTEGER {
      return DerError;
    }
    var algorithm :- AlgorithmOid(rules, der, serial.stop, end);
    var i :- Need(Sequence(der, algorithm.1, end));
    var issuer :- NameLoop(rules, der, i.start, i.stop);
    var v :- Need(Sequence(der, i.stop, end));
    var validity :- Validity(rules, der, v.start, v.stop);
    var j :- Need(Sequence(der, v.stop, end));
    var subject :- NameLoop(rules, der, j.start, j.stop);
    var k :- Need(Sequence(der, j.stop, end));
    var key :- SpkiKey(rules, der, k.start, k.stop);
    var exts :- TailLoop(rules, der, k.stop, end);
    var isCa :- Need(IsCa(exts));
    var selfSigned := rules.render(subject) == rules.render(issuer);
    r := Done(Certificate(der[serial.start..serial.stop], issuer, subject, validity.0, validity.1, algorithm.0, key,
                          Categorise(Oids(algorithm.0, key.oid)), isCa, selfSigned,
                          isCa || (selfSigned && BASIC_CONSTRAINTS !in exts)));
  }
}
