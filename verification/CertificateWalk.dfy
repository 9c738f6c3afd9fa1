/** The OID walk: exact on every certificate's layout, and in agreement with the full parse. */
module CertificateWalk {
  import opened Bytes
  import opened Options
  import opened Der
  import opened Certificates

  // ---- Agreement with the full parse ----

  // The signature algorithm and the subjectPublicKeyInfo, as the walk finds them.
  function FindSpki(rules: Rules, der: bytes): Outcome<(Oid, Tlv)> {
    var tbs :- Need(OpenTbs(der));
    var end := tbs.stop;
    var serial :- Need(SkipVersion(der, tbs.start, end));
    var algorithm :- Need(Skip(der, serial, end));
    var (signature, issuer) :- AlgorithmOid(rules, der, algorithm, end);
    var validity :- Need(Skip(der, issuer, end));
    var subject :- Need(Skip(der, validity, end));
    var spki :- Need(Skip(der, subject, end));
    var s :- Need(ReadTlv(der, spki, end));
    Done((signature, s))
  }

  // The tag of the first element of the key's AlgorithmIdentifier, where the walk expects an OID.
  function KeyOidTag(rules: Rules, der: bytes): Option<byte> {
    match FindSpki(rules, der)
    case Done((_, s)) =>
      if s.stop > |der| then None
      else
        var (_, o) :- SpkiOidElement(der, s.start, s.stop);
        Some(o.tag)
    case _ => None
  }

  lemma {:induction false} WalkFinds(rules: Rules, der: bytes)
    requires FindSpki(rules, der).Done?
    ensures var (signature, s) := FindSpki(rules, der).value;
            && s.stop <= |der|
            && CertAlgorithmOids(rules, der) ==
               if s.tag != SEQUENCE then DerError
               else match AlgorithmOid(rules, der, s.start, s.stop)
                 case Done((key, _)) => Done(Oids(signature, key))
                 case DerError => DerError
                 case ValueError => ValueError
  {
    hide ReadTlv, OpenTbs, SkipVersion, AlgorithmOid, Skip;
  }

  lemma {:induction false} ParseFinds(rules: Rules, der: bytes)
    requires ParseCertificate(rules, der).Done?
    ensures FindSpki(rules, der).Done?
    ensures var c, f := ParseCertificate(rules, der).value, FindSpki(rules, der).value;
            && f.0 == c.signature && f.1.tag == SEQUENCE && f.1.stop <= |der|
            && SpkiKey(rules, der, f.1.start, f.1.stop) == Done(c.key)
            && c.category == Categorise(Oids(c.signature, c.key.oid))
  {
    AlgorithmsSkip(rules, der);
    hide ReadTlv, OpenTbs, SkipVersion, Validity, ReadName, ReadTail, IsCa, Categorise, AlgorithmOid, SpkiKey;
  }

  // What an AlgorithmIdentifier leaves behind it is what an element does.
  lemma {:induction false} AlgorithmsSkip(rules: Rules, der: bytes)
    ensures forall pos: nat, end: nat | end <= |der| && AlgorithmOid(rules, der, pos, end).Done? ::
              Skip(der, pos, end) == Some(AlgorithmOid(rules, der, pos, end).value.1)
  {
    hide ReadTlv, OidText;
  }

  // The key's algorithm, as either reader reads it.
  lemma {:induction false} KeyAgrees(rules: Rules, buf: bytes, start: nat, stop: nat)
    requires stop <= |buf| && SpkiKey(rules, buf, start, stop).Done?
    ensures SpkiOidElement(buf, start, stop).Some?
    ensures var o, walk := SpkiOidElement(buf, start, stop).value.1, AlgorithmOid(rules, buf, start, stop);
            && (walk.Done? <==> o.tag == OID)
            && (walk.Done? ==> walk.value.0 == SpkiKey(rules, buf, start, stop).value.oid)
  {
    hide ReadTlv, OidText, CurveKey, RsaKey, IsRsa;
  }

  /** Whenever the full parse succeeds, the walk succeeds if and only if the key's algorithm element is
      tagged as an OID, which only the walk checks; it then finds the same two OIDs, hence the category. */
  lemma {:induction false} WalkAgreesWithParse(rules: Rules, der: bytes)
    requires ParseCertificate(rules, der).Done?
    ensures var c, walk := ParseCertificate(rules, der).value, CertAlgorithmOids(rules, der);
            && (walk.Done? <==> KeyOidTag(rules, der) == Some(0x06))
            && (walk.Done? ==>
                  walk.value == Oids(c.signature, c.key.oid) && Categorise(walk.value) == c.category)
            && IsCategory(c.signature, c.key.oid, c.category)
  {
    hide ParseCertificate, CertAlgorithmOids, FindSpki, AlgorithmOid, SpkiKey, SpkiOidElement, Categorise;
    hide IsCategory;
    ParseFinds(rules, der);
    CategoryMeans(Oids(ParseCertificate(rules, der).value.signature, ParseCertificate(rules, der).value.key.oid));
    WalkFinds(rules, der);
    var s := FindSpki(rules, der).value.1;
    KeyAgrees(rules, der, s.start, s.stop);
  }

  // ---- Exactness on the layout of section 4.1 of RFC 5280 ----

  // SEQUENCE { OID, parameters }, the parameters being any bytes.  The OID should be tagged as one.
  datatype Algorithm = Algorithm(form: nat, oidTag: byte, oidForm: nat, oid: bytes, parameters: bytes)

  function OidElement(a: Algorithm): Element {
    Element(a.oidTag, a.oidForm, a.oid)
  }

  predicate EncodableAlgorithm(a: Algorithm) {
    Encodable(OidElement(a)) && DecodeOid(a.oid).Some? && Encodable(AlgorithmElement(a))
  }

  function AlgorithmElement(a: Algorithm): Element {
    Element(0x30, a.form, (if Encodable(OidElement(a)) then Encode(OidElement(a)) else []) + a.parameters)
  }

  // A certificate: what the walk passes over may be any element, and `rest`, `after` and `trailing` any bytes.
  datatype Layout = Layout(
    form: nat, tbsForm: nat, version: Option<Element>, serial: Element, signature: Algorithm,
    issuer: Element, validity: Element, subject: Element, spkiForm: nat, key: Algorithm, keyBits: bytes,
    rest: bytes, after: bytes, trailing: bytes)

  predicate EncodableFields(l: Layout) {
    && (match l.version
        case Some(v) => Encodable(v) && v.tag == 0xA0
        case None => l.serial.tag != 0xA0)
    && Encodable(l.serial) && EncodableAlgorithm(l.signature) && l.signature.oidTag == 0x06
    && Encodable(l.issuer) && Encodable(l.validity) && Encodable(l.subject) && EncodableAlgorithm(l.key)
    && Encodable(Spki(l))
  }

  function Spki(l: Layout): Element
    requires EncodableAlgorithm(l.key)
  {
    Element(0x30, l.spkiForm, Encode(AlgorithmElement(l.key)) + l.keyBits)
  }

  function FromSubject(l: Layout): bytes
    requires EncodableFields(l)
  {
    Encode(l.subject) + (Encode(Spki(l)) + l.rest)
  }

  function FromSerial(l: Layout): bytes
    requires EncodableFields(l)
  {
    Encode(l.serial) + (Encode(AlgorithmElement(l.signature))
                        + (Encode(l.issuer) + (Encode(l.validity) + FromSubject(l))))
  }

  function Tbs(l: Layout): Element
    requires EncodableFields(l)
  {
    Element(0x30, l.tbsForm, (if l.version.Some? then Encode(l.version.value) else []) + FromSerial(l))
  }

  function Cert(l: Layout): Element
    requires EncodableFields(l) && Encodable(Tbs(l))
  {
    Element(0x30, l.form, Encode(Tbs(l)) + l.after)
  }

  predicate EncodableCert(l: Layout) {
    EncodableFields(l) && Encodable(Tbs(l)) && Encodable(Cert(l))
  }

  lemma {:induction false} ElementReads(buf: bytes, pos: nat, end: nat, e: Element, rest: bytes)
    requires Encodable(e) && end <= |buf| && Lies(buf, pos, Encode(e) + rest) && pos + |Encode(e)| <= end
    ensures var r := ReadTlv(buf, pos, end);
            && r.Some? && r.value.tag == e.tag && r.value.stop == pos + |Encode(e)|
            && r.value.start + |e.value| == r.value.stop && Lies(buf, r.value.start, e.value)
            && Lies(buf, r.value.stop, rest) && buf[pos] == e.tag
  {
    LiesSplit(buf, pos, Encode(e), rest);
    ReadInvertsEncode(buf, pos, end, e);
  }

  // The OID of an algorithm, or the error where it cannot be written out.
  function OidOf(rules: Rules, a: Algorithm): Outcome<Oid>
    requires EncodableAlgorithm(a)
  {
    if Writable(rules, DecodeOid(a.oid).value) then Done(DecodeOid(a.oid).value) else ValueError
  }

  function With<T, U>(x: Outcome<T>, y: U): Outcome<(T, U)> {
    var v :- x;
    Done((v, y))
  }

  // What reads only where the OID is tagged as one.
  function Tagged<T>(a: Algorithm, x: Outcome<T>): Outcome<T> {
    if a.oidTag == 0x06 then x else DerError
  }

  lemma {:induction false} AlgorithmReads(rules: Rules, buf: bytes, pos: nat, end: nat, a: Algorithm, rest: bytes)
    requires EncodableAlgorithm(a) && end <= |buf|
    requires var s := Encode(AlgorithmElement(a)); Lies(buf, pos, s + rest) && pos + |s| <= end
    ensures var next := pos + |Encode(AlgorithmElement(a))|;
            && AlgorithmOid(rules, buf, pos, end) == Tagged(a, With(OidOf(rules, a), next))
            && Lies(buf, next, rest)
  {
    hide Encode, ReadTlv, DecodeOid, Lies, Encodable, Writable;
    ElementReads(buf, pos, end, AlgorithmElement(a), rest);
    var s := ReadTlv(buf, pos, end).value;
    ElementReads(buf, s.start, s.stop, OidElement(a), a.parameters);
    var o := ReadTlv(buf, s.start, s.stop).value;
    LiesIs(buf, o.start, a.oid);
  }

  lemma {:induction false} LiesIs(buf: bytes, pos: nat, s: bytes)
    requires Lies(buf, pos, s)
    ensures pos + |s| <= |buf| && buf[pos..pos + |s|] == s
  {
  }

  lemma {:induction false} SpkiReads(rules: Rules, buf: bytes, pos: nat, end: nat, l: Layout)
    requires EncodableFields(l) && end <= |buf|
    requires Lies(buf, pos, Encode(Spki(l)) + l.rest) && pos + |Encode(Spki(l))| <= end
    ensures var s := ReadTlv(buf, pos, end);
            && s.Some? && s.value.tag == SEQUENCE
            && exists next ::
                 AlgorithmOid(rules, buf, s.value.start, s.value.stop) == Tagged(l.key, With(OidOf(rules, l.key), next))
  {
    hide Encode, ReadTlv, DecodeOid, Lies, Encodable, AlgorithmOid, OidOf;
    ElementReads(buf, pos, end, Spki(l), l.rest);
    var s := ReadTlv(buf, pos, end).value;
    AlgorithmReads(rules, buf, s.start, s.stop, l.key, l.keyBits);
  }

  lemma {:induction false} SubjectReads(rules: Rules, buf: bytes, pos: nat, end: nat, l: Layout)
    requires EncodableFields(l) && end <= |buf| && Lies(buf, pos, FromSubject(l)) && pos + |FromSubject(l)| <= end
    ensures var spki := Skip(buf, pos, end);
            && spki.Some?
            && var s := ReadTlv(buf, spki.value, end);
            && s.Some? && s.value.tag == SEQUENCE
            && exists next ::
                 AlgorithmOid(rules, buf, s.value.start, s.value.stop) == Tagged(l.key, With(OidOf(rules, l.key), next))
  {
    hide Encode, ReadTlv, DecodeOid, Lies, Encodable, AlgorithmOid, OidOf;
    ElementReads(buf, pos, end, l.subject, Encode(Spki(l)) + l.rest);
    SpkiReads(rules, buf, pos + |Encode(l.subject)|, end, l);
  }

  // The position of the subject, found from that of the serial number.
  function ToSubject(rules: Rules, buf: bytes, serial: nat, end: nat): Outcome<(Oid, nat)>
    requires end <= |buf|
  {
    var algorithm :- Need(Skip(buf, serial, end));
    var (signature, issuer) :- AlgorithmOid(rules, buf, algorithm, end);
    var validity :- Need(Skip(buf, issuer, end));
    var subject :- Need(Skip(buf, validity, end));
    Done((signature, subject))
  }

  lemma {:induction false} SerialReads(rules: Rules, buf: bytes, pos: nat, end: nat, l: Layout) returns (subject: nat)
    requires EncodableFields(l) && end <= |buf| && Lies(buf, pos, FromSerial(l)) && pos + |FromSerial(l)| <= end
    ensures ToSubject(rules, buf, pos, end) == With(OidOf(rules, l.signature), subject)
    ensures Lies(buf, subject, FromSubject(l)) && subject + |FromSubject(l)| <= end
  {
    hide Encode, ReadTlv, DecodeOid, Lies, Encodable, AlgorithmOid, FromSubject, OidOf;
    var s4 := FromSubject(l);
    var s3 := Encode(l.validity) + s4;
    var s2 := Encode(l.issuer) + s3;
    var s1 := Encode(AlgorithmElement(l.signature)) + s2;
    var p1 := pos + |Encode(l.serial)|;
    var p2 := p1 + |Encode(AlgorithmElement(l.signature))|;
    ElementReads(buf, pos, end, l.serial, s1);
    AlgorithmReads(rules, buf, p1, end, l.signature, s2);
    ElementReads(buf, p2, end, l.issuer, s3);
    ElementReads(buf, p2 + |Encode(l.issuer)|, end, l.validity, s4);
    subject := p2 + |Encode(l.issuer)| + |Encode(l.validity)|;
  }

  lemma {:induction false} VersionReads(buf: bytes, pos: nat, end: nat, l: Layout)
    requires EncodableFields(l) && end <= |buf|
    requires Lies(buf, pos, Tbs(l).value) && pos + |Tbs(l).value| <= end
    ensures var r := SkipVersion(buf, pos, end);
            r.Some? && Lies(buf, r.value, FromSerial(l)) && r.value + |FromSerial(l)| == pos + |Tbs(l).value|
  {
    hide Encode, ReadTlv, DecodeOid, Lies, Encodable, AlgorithmOid, FromSubject;
    if l.version.Some? {
      ElementReads(buf, pos, end, l.version.value, FromSerial(l));
    } else {
      assert [] + FromSerial(l) == FromSerial(l);
      var s1 := Encode(AlgorithmElement(l.signature)) + (Encode(l.issuer) + (Encode(l.validity) + FromSubject(l)));
      ElementReads(buf, pos, end, l.serial, s1);
    }
  }

  lemma {:induction false} TbsReads(l: Layout)
    requires EncodableCert(l)
    ensures var der := Encode(Cert(l)) + l.trailing;
            var t := OpenTbs(der);
            && t.Some? && Lies(der, t.value.start, Tbs(l).value)
            && t.value.start + |Tbs(l).value| == t.value.stop
  {
    hide Encode, ReadTlv, Encodable, EncodableFields;
    var der := Encode(Cert(l)) + l.trailing;
    assert der[0..|der|] == der;
    ElementReads(der, 0, |der|, Cert(l), l.trailing);
    var c := ReadTlv(der, 0, |der|).value;
    ElementReads(der, c.start, c.stop, Tbs(l), l.after);
  }

  // The walk, from the subject on.
  lemma {:induction false} WalkFromSerial(rules: Rules, der: bytes, tbs: Tlv, serial: nat)
    requires OpenTbs(der) == Some(tbs) && SkipVersion(der, tbs.start, tbs.stop) == Some(serial)
    ensures CertAlgorithmOids(rules, der) ==
            match ToSubject(rules, der, serial, tbs.stop)
            case DerError => DerError
            case ValueError => ValueError
            case Done((signature, subject)) =>
              match Skip(der, subject, tbs.stop)
              case None => DerError
              case Some(spki) =>
                match ReadTlv(der, spki, tbs.stop)
                case None => DerError
                case Some(s) =>
                  if s.tag != SEQUENCE then DerError
                  else match AlgorithmOid(rules, der, s.start, s.stop)
                    case DerError => DerError
                    case ValueError => ValueError
                    case Done((key, _)) => Done(Oids(signature, key))
  {
    hide ReadTlv, AlgorithmOid, OpenTbs, SkipVersion, Skip;
  }

  /** On every certificate the walk returns exactly the signature and key algorithm OIDs, whatever the other
      fields, the parameters, the extensions, the signature and any trailing bytes hold; it raises exactly where one
      of the two cannot be written out, and refuses a key algorithm that is not tagged as an OID. */
  lemma {:induction false} WalkIsExact(rules: Rules, l: Layout)
    requires EncodableCert(l)
    ensures CertAlgorithmOids(rules, Encode(Cert(l)) + l.trailing) ==
            var signature, key := DecodeOid(l.signature.oid).value, DecodeOid(l.key.oid).value;
            if !Writable(rules, signature) then ValueError
            else if l.key.oidTag != 0x06 then DerError
            else if Writable(rules, key) then Done(Oids(signature, key)) else ValueError
  {
    hide Encode, ReadTlv, DecodeOid, Lies, Encodable, AlgorithmOid, FromSubject, FromSerial, OpenTbs, SkipVersion;
    hide Writable, ToSubject, Skip, CertAlgorithmOids;
    var der := Encode(Cert(l)) + l.trailing;
    TbsReads(l);
    var t := OpenTbs(der).value;
    VersionReads(der, t.start, t.stop, l);
    var serial := SkipVersion(der, t.start, t.stop).value;
    var subject := SerialReads(rules, der, serial, t.stop, l);
    SubjectReads(rules, der, subject, t.stop, l);
    WalkFromSerial(rules, der, t, serial);
  }

  // ---- A small certificate, and where the two readers part ----

  // "000101000000Z", the first second of 2000 as a UTCTime.
  const Y2000: bytes := [0x30, 0x30, 0x30, 0x31, 0x30, 0x31, 0x30, 0x30, 0x30, 0x30, 0x30, 0x30, 0x5A]

  // "XX0101000000Z", whose year is no number.
  const NO_YEAR: bytes := [0x58, 0x58, 0x30, 0x31, 0x30, 0x31, 0x30, 0x30, 0x30, 0x30, 0x30, 0x30, 0x5A]

  // A certificate of 55 bytes, the time 13 of them, whose key algorithm has the tag given.
  function Sample(keyTag: byte, time: bytes): bytes {
    [0x30, 0x35, 0x30, 0x33, 0x02, 0x01, 0x00, 0x30, 0x03, 0x06, 0x01, 0x2A]
    + ([0x30, 0x00, 0x30, 0x1E, 0x17, 0x0D] + (time + ([0x17, 0x0D] + (time
    + [0x30, 0x00, 0x30, 0x05, 0x30, 0x03, keyTag, 0x01, 0x2A]))))
  }

  lemma {:induction false} ShortTlv(buf: bytes, pos: nat, end: nat)
    requires pos + 2 <= end <= |buf| && buf[pos] % 0x20 != 0x1F && buf[pos + 1] < 0x80
    requires pos + 2 + buf[pos + 1] <= end
    ensures ReadTlv(buf, pos, end) == Some(Tlv(buf[pos], pos + 2, pos + 2 + buf[pos + 1]))
  {
  }

  // Where its elements lie.
  ghost predicate SampleElements(d: bytes, keyTag: byte, time: bytes) {
    && |d| == 55 && d[4] != VERSION_TAG && d[11..12] == [0x2A] && d[54..55] == [0x2A]
    && d[18..31] == time && d[33..46] == time
    && ReadTlv(d, 0, 55) == Some(Tlv(SEQUENCE, 2, 55)) && ReadTlv(d, 2, 55) == Some(Tlv(SEQUENCE, 4, 55))
    && ReadTlv(d, 4, 55) == Some(Tlv(INTEGER, 6, 7)) && ReadTlv(d, 7, 55) == Some(Tlv(SEQUENCE, 9, 12))
    && ReadTlv(d, 9, 12) == Some(Tlv(OID, 11, 12)) && ReadTlv(d, 12, 55) == Some(Tlv(SEQUENCE, 14, 14))
    && ReadTlv(d, 14, 55) == Some(Tlv(SEQUENCE, 16, 46)) && ReadTlv(d, 16, 46) == Some(Tlv(UTC_TIME, 18, 31))
    && ReadTlv(d, 31, 46) == Some(Tlv(UTC_TIME, 33, 46)) && ReadTlv(d, 46, 55) == Some(Tlv(SEQUENCE, 48, 48))
    && ReadTlv(d, 48, 55) == Some(Tlv(SEQUENCE, 50, 55)) && ReadTlv(d, 50, 55) == Some(Tlv(SEQUENCE, 52, 55))
    && ReadTlv(d, 52, 55) == Some(Tlv(keyTag, 54, 55))
  }

  lemma {:induction false} SampleLies(d: bytes, keyTag: byte, time: bytes)
    requires |d| == 55 && keyTag % 0x20 != 0x1F
    requires d[..12] == [0x30, 0x35, 0x30, 0x33, 0x02, 0x01, 0x00, 0x30, 0x03, 0x06, 0x01, 0x2A]
    requires d[12..18] == [0x30, 0x00, 0x30, 0x1E, 0x17, 0x0D] && d[18..31] == time
    requires d[31..33] == [0x17, 0x0D] && d[33..46] == time
    requires d[46..] == [0x30, 0x00, 0x30, 0x05, 0x30, 0x03, keyTag, 0x01, 0x2A]
    ensures SampleElements(d, keyTag, time)
  {
    var a, b, c, e := d[..12], d[12..18], d[31..33], d[46..];
    assert d[0] == a[0] && d[1] == a[1] && d[2] == a[2] && d[3] == a[3] && d[4] == a[4] && d[5] == a[5];
    assert d[7] == a[7] && d[8] == a[8] && d[9] == a[9] && d[10] == a[10] && d[11] == a[11];
    assert d[12] == b[0] && d[13] == b[1] && d[14] == b[2] && d[15] == b[3] && d[16] == b[4] && d[17] == b[5];
    assert d[31] == c[0] && d[32] == c[1];
    assert d[46] == e[0] && d[47] == e[1] && d[48] == e[2] && d[49] == e[3] && d[50] == e[4] && d[51] == e[5];
    assert d[52] == e[6] && d[53] == e[7] && d[54] == e[8];
    ShortTlv(d, 0, 55);
    ShortTlv(d, 2, 55);
    ShortTlv(d, 4, 55);
    ShortTlv(d, 7, 55);
    ShortTlv(d, 9, 12);
    ShortTlv(d, 12, 55);
    ShortTlv(d, 14, 55);
    ShortTlv(d, 16, 46);
    ShortTlv(d, 31, 46);
    ShortTlv(d, 46, 55);
    ShortTlv(d, 48, 55);
    ShortTlv(d, 50, 55);
    ShortTlv(d, 52, 55);
    hide ReadTlv;
  }

  lemma {:induction false} SampleIs(keyTag: byte, time: bytes)
    requires |time| == 13 && keyTag % 0x20 != 0x1F
    ensures SampleElements(Sample(keyTag, time), keyTag, time)
  {
    var d := Sample(keyTag, time);
    assert d[..12] == [0x30, 0x35, 0x30, 0x33, 0x02, 0x01, 0x00, 0x30, 0x03, 0x06, 0x01, 0x2A];
    assert d[12..18] == [0x30, 0x00, 0x30, 0x1E, 0x17, 0x0D] && d[18..31] == time;
    assert d[31..33] == [0x17, 0x0D] && d[33..46] == time;
    assert d[46..] == [0x30, 0x00, 0x30, 0x05, 0x30, 0x03, keyTag, 0x01, 0x2A];
    hide Sample, SampleElements;
    SampleLies(d, keyTag, time);
  }

  lemma {:induction false} AsciiIs(value: bytes)
    requires forall i | 0 <= i < |value| :: value[i] < 0x80
    ensures |Ascii(value)| == |value| && forall i | 0 <= i < |value| :: Ascii(value)[i] == value[i] as char
    decreases |value|
  {
    if value != [] {
      AsciiIs(value[1..]);
    }
  }

  lemma {:induction false} TimeIs(rules: Rules, value: bytes, text: string)
    requires |value| == |text| >= 2 && text[|text| - 1] == 'Z'
    requires forall i | 0 <= i < |value| :: value[i] < 0x80 && value[i] as char == text[i]
    ensures DerTime(rules, UTC_TIME, value) ==
            match ShortInt(text[..2])
            case None => ValueError
            case Some(yy) => Need(rules.calendar(First((if yy >= 50 then "19" else "20") + text, 14)))
  {
    AsciiIs(value);
    hide Ascii, ShortInt;
    assert Ascii(value) == text;
    assert First(text, 2) == text[..2];
  }

  lemma {:induction false} SampleTimes(rules: Rules)
    ensures DerTime(rules, UTC_TIME, Y2000) == Need(rules.calendar("20000101000000"))
    ensures DerTime(rules, UTC_TIME, NO_YEAR) == ValueError
  {
    hide DerTime;
    var text := "000101000000Z";
    TimeIs(rules, Y2000, text);
    assert text[..2] == "00" && ShortInt("00") == Some(0);
    assert ("20" + text)[..14] == "20000101000000";
    TimeIs(rules, NO_YEAR, "XX0101000000Z");
    assert "XX0101000000Z"[..2] == "XX" && ShortInt("XX") == None;
  }

  lemma {:induction false} SmallOid(rules: Rules)
    ensures OidText(rules, [0x2A]) == Done([1, 2])
  {
    assert [0x2A][1..] == [];
    assert [1, 2] + Arcs([], 0) == [1, 2];
    assert DecodeOid([0x2A]) == Some([1, 2]);
    hide DecodeOid;
    assert Decimals(1) == 1 && Decimals(2) == 1;
  }

  // The key's algorithm is read whatever its tag.
  lemma {:induction false} SampleParts(rules: Rules, d: bytes, keyTag: byte, time: bytes)
    requires SampleElements(d, keyTag, time)
    ensures AlgorithmOid(rules, d, 7, 55) == Done(([1, 2], 12))
    ensures ReadName(rules, d, 14, 14) == Done([]) && ReadName(rules, d, 48, 48) == Done([])
    ensures Validity(rules, d, 16, 46) ==
            match DerTime(rules, UTC_TIME, time)
            case Done(t) => Done((t, t))
            case DerError => DerError
            case ValueError => ValueError
    ensures var key := Key([1, 2], rules.algorithm([1, 2]).0, rules.algorithm([1, 2]).1);
            !IsRsa(key.name) ==> SpkiKey(rules, d, 50, 55) == Done(key)
    ensures ReadTail(rules, d, 55, 55, map[]) == Done(map[]) && IsCa(map[]) == Some(false)
    ensures OpenTbs(d) == Some(Tlv(SEQUENCE, 4, 55)) && SkipVersion(d, 4, 55) == Some(4)
  {
    hide ReadTlv, CurveKey, RsaKey, DerTime, IsRsa, OidText;
    SmallOid(rules);
  }

  /** The full parse accepts a key algorithm tagged INTEGER, the walk does not. */
  lemma {:induction false} MistaggedKeyParsesOnly(rules: Rules)
    requires rules.calendar("20000101000000").Some? && !IsRsa(rules.algorithm([1, 2]).0)
    ensures ParseCertificate(rules, Sample(INTEGER, Y2000)).Done?
    ensures CertAlgorithmOids(rules, Sample(INTEGER, Y2000)) == DerError
  {
    var d := Sample(INTEGER, Y2000);
    SampleIs(INTEGER, Y2000);
    SampleTimes(rules);
    hide Sample, DerTime;
    SampleParts(rules, d, INTEGER, Y2000);
    MistaggedWalk(rules, d);
    hide ReadTlv, Categorise, AlgorithmOid, Validity, ReadName, SpkiKey, ReadTail, OpenTbs, SkipVersion, IsCa, IsRsa;
    assert ParseCertificate(rules, d).Done?;
  }

  lemma {:induction false} MistaggedWalk(rules: Rules, d: bytes)
    requires SampleElements(d, INTEGER, Y2000) && AlgorithmOid(rules, d, 7, 55) == Done(([1, 2], 12))
    requires OpenTbs(d) == Some(Tlv(SEQUENCE, 4, 55)) && SkipVersion(d, 4, 55) == Some(4)
    ensures CertAlgorithmOids(rules, d) == DerError
  {
    assert AlgorithmOid(rules, d, 50, 55) == DerError by { hide ReadTlv, OidText; }
    hide ReadTlv, AlgorithmOid, OpenTbs, SkipVersion;
  }

  /** A year that is no number ends the full parse with an error no caller of it expects. */
  lemma {:induction false} BadYearRaises(rules: Rules)
    ensures ParseCertificate(rules, Sample(OID, NO_YEAR)) == ValueError
  {
    var d := Sample(OID, NO_YEAR);
    SampleIs(OID, NO_YEAR);
    SampleTimes(rules);
    hide Sample, DerTime;
    SampleParts(rules, d, OID, NO_YEAR);
    hide ReadTlv, Categorise, AlgorithmOid, Validity, ReadName, SpkiKey, ReadTail, OpenTbs, SkipVersion, IsCa, IsRsa;
  }
}
