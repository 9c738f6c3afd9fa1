/** Whatever the certificate readers accept is laid out as a certificate: the other half of exactness. */
module CertificateExact {
  import opened Bytes
  import opened Options
  import opened Der
  import opened Certificates
  import opened CertificateWalk
  import opened CertificateFields

  // ---- Elements ----

  // The element that was read, and where it lies.
  lemma {:induction false} ElementIs(buf: bytes, pos: nat, end: nat) returns (e: Element)
    requires end <= |buf| && ReadTlv(buf, pos, end).Some?
    ensures var t := ReadTlv(buf, pos, end).value;
            && Encodable(e) && e.tag == t.tag && e.value == buf[t.start..t.stop]
            && pos + |Encode(e)| == t.stop && buf[pos..t.stop] == Encode(e)
  {
    hide ReadTlv, Encode, Encodable;
    e := ReadMeansEncoded(buf, pos, end);
  }

  lemma {:induction false} Joined(buf: bytes, i: nat, j: nat, k: nat)
    requires i <= j <= k <= |buf|
    ensures buf[i..k] == buf[i..j] + buf[j..k]
  {
  }

  // SEQUENCE { OID, parameters }, but for the tag of the OID.
  lemma {:induction false} AlgorithmIs(buf: bytes, pos: nat, end: nat) returns (a: Algorithm)
    requires end <= |buf| && SpkiOidElement(buf, pos, end).Some?
    requires var o := SpkiOidElement(buf, pos, end).value.1; DecodeOid(buf[o.start..o.stop]).Some?
    ensures var (s, o) := SpkiOidElement(buf, pos, end).value;
            && EncodableAlgorithm(a) && a.oidTag == o.tag && a.oid == buf[o.start..o.stop]
            && a.parameters == buf[o.stop..s.stop]
            && buf[pos..s.stop] == Encode(AlgorithmElement(a)) && pos + |Encode(AlgorithmElement(a))| == s.stop
  {
    hide ReadTlv, Encode, Encodable, DecodeOid;
    var (s, o) := SpkiOidElement(buf, pos, end).value;
    var whole := ElementIs(buf, pos, end);
    var inner := ElementIs(buf, s.start, s.stop);
    Joined(buf, s.start, o.stop, s.stop);
    a := Algorithm(whole.form, inner.tag, inner.form, inner.value, buf[o.stop..s.stop]);
    assert OidElement(a) == inner;
    assert AlgorithmElement(a) == whole;
  }

  lemma {:induction false} SignatureIs(rules: Rules, buf: bytes, pos: nat, end: nat) returns (a: Algorithm)
    requires end <= |buf| && AlgorithmOid(rules, buf, pos, end).Done?
    ensures var (oid, next) := AlgorithmOid(rules, buf, pos, end).value;
            && EncodableAlgorithm(a) && a.oidTag == 0x06 && OidOf(rules, a) == Done(oid)
            && buf[pos..next] == Encode(AlgorithmElement(a)) && pos + |Encode(AlgorithmElement(a))| == next
  {
    hide ReadTlv, Encode, Encodable, DecodeOid, Writable;
    var s := ReadTlv(buf, pos, end).value;
    assert SpkiOidElement(buf, pos, end) == Some((s, ReadTlv(buf, s.start, s.stop).value));
    a := AlgorithmIs(buf, pos, end);
  }

  // ---- Names ----

  lemma {:induction false} AttributeIs(rules: Rules, buf: bytes, pos: nat, end: nat) returns (a: AttributeLayout)
    requires end <= |buf| && ReadAttribute(rules, buf, pos, end).Done?
    ensures var (value, next) := ReadAttribute(rules, buf, pos, end).value;
            && FitsAttribute(a) && AttributeOf(rules, a) == Done(value)
            && buf[pos..next] == Encode(AttributeElement(a)) && pos + |Encode(AttributeElement(a))| == next
  {
    hide ReadTlv, Encode, Encodable, DecodeOid, Writable;
    var s := ReadTlv(buf, pos, end).value;
    var o := ReadTlv(buf, s.start, s.stop).value;
    var v := ReadTlv(buf, o.stop, s.stop).value;
    var whole := ElementIs(buf, pos, end);
    var oid := ElementIs(buf, s.start, s.stop);
    var value := ElementIs(buf, o.stop, s.stop);
    Joined(buf, s.start, o.stop, s.stop);
    Joined(buf, o.stop, v.stop, s.stop);
    a := AttributeLayout(whole.form, oid.form, oid.value, value, buf[v.stop..s.stop]);
    assert Element(0x06, a.oidForm, a.oid) == oid;
    assert AttributeElement(a) == whole;
  }

  lemma {:induction false} AttributesAre(rules: Rules, buf: bytes, pos: nat, end: nat)
    returns (la: seq<AttributeLayout>)
    requires pos <= end <= |buf| && ReadAttributes(rules, buf, pos, end).Done?
    ensures FitAttributes(la) && buf[pos..end] == AttributeBytes(la)
    decreases end - pos
  {
    hide Encode, Encodable, ReadAttribute, FitsAttribute, AttributeElement;
    if pos == end {
      la := [];
    } else {
      var next := ReadAttribute(rules, buf, pos, end).value.1;
      var a := AttributeIs(rules, buf, pos, end);
      var rest := AttributesAre(rules, buf, next, end);
      la := [a] + rest;
      assert la[1..] == rest;
      Joined(buf, pos, next, end);
    }
  }

  lemma {:induction false} NameIs(rules: Rules, buf: bytes, pos: nat, end: nat) returns (n: NameLayout)
    requires pos <= end <= |buf| && ReadName(rules, buf, pos, end).Done?
    ensures FitsName(n) && buf[pos..end] == NameBytes(n)
    decreases end - pos
  {
    hide ReadTlv, Encode, Encodable, ReadAttributes, AttributeBytes, FitAttributes;
    if pos == end {
      n := [];
    } else {
      var s := ReadTlv(buf, pos, end).value;
      var e := ElementIs(buf, pos, end);
      var la := AttributesAre(rules, buf, s.start, s.stop);
      var rest := NameIs(rules, buf, s.stop, end);
      assert RdnElement(RdnLayout(e.form, la)) == e;
      n := [RdnLayout(e.form, la)] + rest;
      assert n[1..] == rest && FitsRdn(n[0]);
      Joined(buf, pos, s.stop, end);
    }
  }

  // ---- Extensions and what else follows the key ----

  lemma {:induction false} ExtensionIs(rules: Rules, buf: bytes, pos: nat, end: nat, out: Extensions)
    returns (x: ExtensionLayout)
    requires end <= |buf| && ReadExtension(rules, buf, pos, end, out).Done?
    ensures var next := ReadExtension(rules, buf, pos, end, out).value.1;
            && FitsExtension(x) && buf[pos..next] == Encode(ExtensionElement(x))
            && pos + |Encode(ExtensionElement(x))| == next
  {
    hide ReadTlv, Encode, Encodable, DecodeOid, Writable;
    var s := ReadTlv(buf, pos, end).value;
    var o := ReadTlv(buf, s.start, s.stop).value;
    var first := ReadTlv(buf, o.stop, s.stop).value;
    var whole := ElementIs(buf, pos, end);
    var id := ElementIs(buf, s.start, s.stop);
    var head := ElementIs(buf, o.stop, s.stop);
    Joined(buf, s.start, o.stop, s.stop);
    Joined(buf, o.stop, first.stop, s.stop);
    if first.tag == BOOLEAN {
      var n := ReadTlv(buf, first.stop, s.stop).value;
      var value := ElementIs(buf, first.stop, s.stop);
      Joined(buf, first.stop, n.stop, s.stop);
      x := ExtensionLayout(whole.tag, whole.form, id, Some(head), value, buf[n.stop..s.stop]);
      assert ExtensionElement(x) == whole;
    } else {
      x := ExtensionLayout(whole.tag, whole.form, id, None, head, buf[first.stop..s.stop]);
      assert [] + (Encode(head) + x.extra) == Encode(head) + x.extra;
      assert ExtensionElement(x) == whole;
    }
  }

  lemma {:induction false} ExtensionsAre(rules: Rules, buf: bytes, pos: nat, end: nat, out: Extensions)
    returns (xs: seq<ExtensionLayout>)
    requires pos <= end <= |buf| && ReadExtensionList(rules, buf, pos, end, out).Done?
    ensures FitExtensions(xs) && buf[pos..end] == ExtensionBytes(xs)
    decreases end - pos
  {
    hide Encode, Encodable, ReadExtension, FitsExtension, ExtensionElement;
    if pos == end {
      xs := [];
    } else {
      var (out1, next) := ReadExtension(rules, buf, pos, end, out).value;
      var x := ExtensionIs(rules, buf, pos, end, out);
      var rest := ExtensionsAre(rules, buf, next, end, out1);
      xs := [x] + rest;
      assert xs[1..] == rest;
      Joined(buf, pos, next, end);
    }
  }

  lemma {:induction false} FieldIs(rules: Rules, buf: bytes, start: nat, stop: nat)
    returns (listForm: nat, xs: seq<ExtensionLayout>, extra: bytes)
    requires start <= stop <= |buf| && ReadExtensions(rules, buf, start, stop).Done?
    ensures FitExtensions(xs) && Encodable(ListElement(listForm, xs))
    ensures buf[start..stop] == Encode(ListElement(listForm, xs)) + extra
  {
    hide ReadTlv, Encode, Encodable, ReadExtensionList, ExtensionBytes, FitExtensions;
    var s := ReadTlv(buf, start, stop).value;
    var e := ElementIs(buf, start, stop);
    xs := ExtensionsAre(rules, buf, s.start, s.stop, map[]);
    listForm, extra := e.form, buf[s.stop..stop];
    assert ListElement(listForm, xs) == e;
    Joined(buf, start, s.stop, stop);
  }

  lemma {:induction false} TailIs(rules: Rules, buf: bytes, pos: nat, end: nat, exts: Extensions)
    returns (ts: seq<TailLayout>)
    requires pos <= end <= |buf| && ReadTail(rules, buf, pos, end, exts).Done?
    ensures FitTails(ts) && buf[pos..end] == TailBytes(ts)
    decreases end - pos
  {
    hide ReadTlv, Encode, Encodable, ReadExtensions, ExtensionBytes, FitExtensions;
    if pos == end {
      ts := [];
    } else {
      var s := ReadTlv(buf, pos, end).value;
      var e := ElementIs(buf, pos, end);
      var t := Other(e);
      var exts1 := Done(exts);
      if s.tag == EXTENSIONS_TAG {
        exts1 := ReadExtensions(rules, buf, s.start, s.stop);
        var listForm, xs, extra := FieldIs(rules, buf, s.start, s.stop);
        t := ExtensionsField(e.form, listForm, xs, extra);
        assert FieldElement(e.form, listForm, xs, extra) == e;
      }
      assert FitsTail(t) && TailElement(t) == e;
      var rest := TailIs(rules, buf, s.stop, end, exts1.value);
      ts := [t] + rest;
      assert ts[1..] == rest;
      Joined(buf, pos, s.stop, end);
    }
  }

  // ---- The key ----

  // What the size of an RSA key is read from.
  lemma {:induction false} RsaKeyIs(rules: Rules, key: Key, buf: bytes, pos: nat, end: nat, parameters: bytes)
    returns (k: KeyLayout)
    requires pos <= end <= |buf| && RsaKey(key, buf, pos, end).Some?
    requires NamesRsa(rules.algorithm(key.oid).0) && (key.oid == ID_EC_KEY ==> parameters == [])
    ensures !k.AnyKey? && !k.EcKey? && k.parameters == parameters
    ensures FitsKey(rules, key.oid, k) && buf[pos..end] == KeyBits(rules, key.oid, k)
  {
    hide ReadTlv, Encode, Encodable, IntBits, NamesRsa;
    var b := ReadTlv(buf, pos, end).value;
    var e := ElementIs(buf, pos, end);
    Joined(buf, pos, b.stop, end);
    var extra := buf[b.stop..end];
    if b.tag != BIT_STRING || b.start >= b.stop {
      k := RsaNoBits(parameters, e, extra);
    } else {
      var r := ReadTlv(buf, b.start + 1, b.stop).value;
      var inner := ElementIs(buf, b.start + 1, b.stop);
      Joined(buf, b.start, b.start + 1, b.stop);
      Joined(buf, b.start + 1, r.stop, b.stop);
      var unused, spare := buf[b.start], buf[r.stop..b.stop];
      assert buf[b.start..b.start + 1] == [unused];
      assert BitString(e.form, unused, inner, spare) == e;
      if r.tag != SEQUENCE {
        k := RsaNoKey(parameters, e.form, unused, inner, spare, extra);
      } else {
        var m := ReadTlv(buf, r.start, r.stop).value;
        var modulus := ElementIs(buf, r.start, r.stop);
        Joined(buf, r.start, m.stop, r.stop);
        var exponent := buf[m.stop..r.stop];
        assert RsaPublicKey(inner.form, modulus, exponent) == inner;
        k := RsaModulus(parameters, e.form, unused, inner.form, modulus, exponent, spare, extra);
      }
    }
  }

  lemma {:induction false} CurveIs(rules: Rules, key: Key, buf: bytes, pos: nat, end: nat, bits: bytes)
    returns (k: KeyLayout)
    requires pos <= end <= |buf| && CurveKey(rules, key, buf, pos, end).Done? && key.oid == ID_EC_KEY
    ensures k.EcKey? && k.bits == bits
    ensures FitsKey(rules, key.oid, k) && buf[pos..end] == KeyParameters(rules, key.oid, k)
  {
    hide ReadTlv, Encode, Encodable, DecodeOid, Writable, NamesRsa;
    var p := ReadTlv(buf, pos, end).value;
    var e := ElementIs(buf, pos, end);
    Joined(buf, pos, p.stop, end);
    k := EcKey(e, buf[p.stop..end], bits);
  }

  lemma {:induction false} KeyIs(rules: Rules, buf: bytes, start: nat, stop: nat) returns (a: Algorithm, k: KeyLayout)
    requires start <= stop <= |buf| && SpkiKey(rules, buf, start, stop).Done?
    ensures EncodableAlgorithm(a) && FitsKey(rules, DecodeOid(a.oid).value, k)
    ensures a.parameters == KeyParameters(rules, DecodeOid(a.oid).value, k)
    ensures buf[start..stop] == Encode(AlgorithmElement(a)) + KeyBits(rules, DecodeOid(a.oid).value, k)
  {
    hide ReadTlv, Encode, Encodable, DecodeOid, Writable, CurveKey, RsaKey, IsRsa, NamesRsa, IntBits, SpkiOidElement;
    var (s, o) := SpkiOidElement(buf, start, stop).value;
    a := AlgorithmIs(buf, start, stop);
    var oid := DecodeOid(a.oid).value;
    var key := Key(oid, rules.algorithm(oid).0, rules.algorithm(oid).1);
    RsaNames(key.name);
    Joined(buf, start, s.stop, stop);
    if oid == EC_KEY && o.stop < s.stop {
      k := CurveIs(rules, key, buf, o.stop, s.stop, buf[s.stop..stop]);
    } else if IsRsa(key.name) {
      k := RsaKeyIs(rules, key, buf, s.stop, stop, a.parameters);
    } else {
      k := AnyKey(a.parameters, buf[s.stop..stop]);
    }
  }

  // ---- Whole certificates ----

  // Where the elements of tbsCertificate were found, from the serial number on.
  datatype Found = Found(pos: nat, serial: Tlv, next: nat, issuer: Tlv, validity: Tlv, subject: Tlv, spki: Tlv,
                         end: nat)

  ghost predicate IsFound(rules: Rules, d: bytes, f: Found, signature: Oid) {
    && f.end <= |d| && ReadTlv(d, f.pos, f.end) == Some(f.serial)
    && AlgorithmOid(rules, d, f.serial.stop, f.end) == Done((signature, f.next))
    && ReadTlv(d, f.next, f.end) == Some(f.issuer) && ReadTlv(d, f.issuer.stop, f.end) == Some(f.validity)
    && ReadTlv(d, f.validity.stop, f.end) == Some(f.subject) && ReadTlv(d, f.subject.stop, f.end) == Some(f.spki)
  }

  // The element e is what was read at pos.
  ghost predicate WasRead(d: bytes, pos: nat, t: Tlv, e: Element) {
    && pos <= t.start <= t.stop <= |d| && Encodable(e) && e.tag == t.tag && e.value == d[t.start..t.stop]
    && d[pos..t.stop] == Encode(e)
  }

  lemma {:induction false} ReadTells(d: bytes, pos: nat, t: Tlv, e: Element)
    requires WasRead(d, pos, t, e)
    ensures pos <= t.start <= t.stop <= |d| && e.tag == t.tag && e.value == d[t.start..t.stop]
  {
  }

  lemma {:induction false} ReadIs(d: bytes, pos: nat, end: nat, t: Tlv) returns (e: Element)
    requires end <= |d| && ReadTlv(d, pos, end) == Some(t)
    ensures WasRead(d, pos, t, e)
  {
    hide ReadTlv, Encode, Encodable;
    e := ElementIs(d, pos, end);
  }

  // The pieces put together.
  lemma {:induction false} PartsJoin(d: bytes, f: Found, l: Layout)
    requires EncodableFields(l) && f.pos <= f.serial.stop <= f.next && f.spki.stop <= f.end <= |d|
    requires WasRead(d, f.pos, f.serial, l.serial) && WasRead(d, f.next, f.issuer, l.issuer)
    requires WasRead(d, f.issuer.stop, f.validity, l.validity) && WasRead(d, f.validity.stop, f.subject, l.subject)
    requires WasRead(d, f.subject.stop, f.spki, Spki(l))
    requires d[f.serial.stop..f.next] == Encode(AlgorithmElement(l.signature)) && d[f.spki.stop..f.end] == l.rest
    ensures d[f.pos..f.end] == FromSerial(l)
  {
    hide Encode, Encodable, DecodeOid;
    Joined(d, f.subject.stop, f.spki.stop, f.end);
    Joined(d, f.validity.stop, f.subject.stop, f.end);
    Joined(d, f.issuer.stop, f.validity.stop, f.end);
    Joined(d, f.next, f.issuer.stop, f.end);
    Joined(d, f.serial.stop, f.next, f.end);
    Joined(d, f.pos, f.serial.stop, f.end);
  }

  // The version, if there is one.
  lemma {:induction false} VersionIs(d: bytes, start: nat, stop: nat) returns (version: Option<Element>)
    requires start <= stop <= |d| && SkipVersion(d, start, stop).Some?
    ensures var pos := SkipVersion(d, start, stop).value;
            && d[start..pos] == (if version.Some? && Encodable(version.value) then Encode(version.value) else [])
            && (version.Some? ==> Encodable(version.value) && version.value.tag == 0xA0)
            && (version.None? ==> pos == start && (pos < stop ==> d[pos] != 0xA0))
  {
    hide ReadTlv, Encode, Encodable;
    version := None;
    if start < stop && d[start] == VERSION_TAG {
      var e := ElementIs(d, start, stop);
      version := Some(e);
    }
  }

  // The elements of a certificate and of its tbsCertificate.
  ghost predicate IsOpened(der: bytes, c0: Tlv, t0: Tlv, c: Element, t: Element) {
    && OpenTbs(der) == Some(t0) && c.tag == 0x30 && t.tag == 0x30
    && WasRead(der, 0, c0, c) && WasRead(der, c0.start, t0, t) && t0.stop <= c0.stop
  }

  lemma {:induction false} OpenedIs(der: bytes) returns (c0: Tlv, c: Element, t: Element)
    requires OpenTbs(der).Some?
    ensures IsOpened(der, c0, OpenTbs(der).value, c, t)
  {
    hide ReadTlv, Encode, Encodable;
    c0 := ReadTlv(der, 0, |der|).value;
    c := ReadIs(der, 0, |der|, c0);
    t := ReadIs(der, c0.start, c0.stop, OpenTbs(der).value);
  }

  // The whole from tbsCertificate.
  lemma {:induction false} WholeIs(der: bytes, c0: Tlv, t0: Tlv, c: Element, t: Element, l: Layout)
    requires IsOpened(der, c0, t0, c, t) && EncodableFields(l) && l.form == c.form && l.tbsForm == t.form
    requires l.after == der[t0.stop..c0.stop] && l.trailing == der[c0.stop..]
    requires t.value == (if l.version.Some? then Encode(l.version.value) else []) + FromSerial(l)
    ensures EncodableCert(l) && der == Encode(Cert(l)) + l.trailing
  {
    hide OpenTbs, Encode, Encodable, FromSerial, EncodableFields;
    assert Tbs(l) == t;
    Joined(der, c0.start, t0.stop, c0.stop);
    assert Cert(l) == c;
    Joined(der, 0, c0.stop, |der|);
    assert der[0..|der|] == der;
  }

  // The layout of what was found, given the key.
  lemma {:induction false} LayoutIs(rules: Rules, der: bytes, f: Found, signature: Oid, key: Algorithm, bits: bytes)
    returns (l: Layout)
    requires OpenTbs(der).Some? && OpenTbs(der).value.start <= OpenTbs(der).value.stop == f.end <= |der|
    requires SkipVersion(der, OpenTbs(der).value.start, f.end) == Some(f.pos)
    requires IsFound(rules, der, f, signature) && f.spki.tag == SEQUENCE
    requires EncodableAlgorithm(key)
    requires f.spki.start <= f.spki.stop <= f.end
    requires der[f.spki.start..f.spki.stop] == Encode(AlgorithmElement(key)) + bits
    ensures EncodableCert(l) && der == Encode(Cert(l)) + l.trailing
    ensures l.key == key && l.keyBits == bits && l.rest == der[f.spki.stop..f.end]
    ensures EncodableAlgorithm(l.signature) && OidOf(rules, l.signature) == Done(signature)
    ensures WasRead(der, f.pos, f.serial, l.serial) && WasRead(der, f.next, f.issuer, l.issuer)
    ensures WasRead(der, f.issuer.stop, f.validity, l.validity)
    ensures WasRead(der, f.validity.stop, f.subject, l.subject)
  {
    hide ReadTlv, OpenTbs, Encode, DecodeOid, AlgorithmOid, SkipVersion, OidOf, WasRead, FromSerial;
    var t0 := OpenTbs(der).value;
    var c0, c, t := OpenedIs(der);
    var version := VersionIs(der, t0.start, f.end);
    var serial := ReadIs(der, f.pos, f.end, f.serial);
    var algorithm := SignatureIs(rules, der, f.serial.stop, f.end);
    var issuer := ReadIs(der, f.next, f.end, f.issuer);
    var validity := ReadIs(der, f.issuer.stop, f.end, f.validity);
    var subject := ReadIs(der, f.validity.stop, f.end, f.subject);
    var spki := ReadIs(der, f.subject.stop, f.end, f.spki);
    ReadTells(der, 0, c0, c);
    ReadTells(der, c0.start, t0, t);
    ReadTells(der, f.pos, f.serial, serial);
    ReadTells(der, f.subject.stop, f.spki, spki);
    l := Layout(c.form, t.form, version, serial, algorithm, issuer, validity, subject, spki.form, key, bits,
                der[f.spki.stop..f.end], der[f.end..c0.stop], der[c0.stop..]);
    AreEncodable(der, f, l, spki);
    PartsJoin(der, f, l);
    VersionJoins(der, t0, f, l, t);
    WholeIs(der, c0, t0, c, t, l);
  }

  lemma {:induction false} AreEncodable(der: bytes, f: Found, l: Layout, spki: Element)
    requires WasRead(der, f.pos, f.serial, l.serial) && WasRead(der, f.next, f.issuer, l.issuer)
    requires WasRead(der, f.issuer.stop, f.validity, l.validity)
    requires WasRead(der, f.validity.stop, f.subject, l.subject) && WasRead(der, f.subject.stop, f.spki, spki)
    requires EncodableAlgorithm(l.signature) && l.signature.oidTag == 0x06 && EncodableAlgorithm(l.key)
    requires l.version.Some? ==> Encodable(l.version.value) && l.version.value.tag == 0xA0
    requires l.version.None? ==> l.serial.tag != 0xA0
    requires spki.tag == 0x30 && spki.form == l.spkiForm && spki.value == Encode(AlgorithmElement(l.key)) + l.keyBits
    ensures EncodableFields(l) && Spki(l) == spki
  {
    hide Encode, Encodable, DecodeOid;
    assert Spki(l) == spki;
  }

  lemma {:induction false} VersionJoins(der: bytes, t0: Tlv, f: Found, l: Layout, t: Element)
    requires EncodableFields(l) && t0.start <= f.pos <= f.end == t0.stop <= |der|
    requires t.value == der[t0.start..t0.stop] && der[f.pos..f.end] == FromSerial(l)
    requires der[t0.start..f.pos] == if l.version.Some? then Encode(l.version.value) else []
    ensures t.value == (if l.version.Some? then Encode(l.version.value) else []) + FromSerial(l)
  {
    hide Encode, Encodable, FromSerial, EncodableFields;
    Joined(der, t0.start, f.pos, f.end);
  }

  // ---- The walk ----

  // The bytes are a certificate with these OIDs, both tagged as OIDs and both short enough to be written out.
  ghost predicate IsWalkable(rules: Rules, der: bytes, oids: Oids, l: Layout) {
    && EncodableCert(l) && der == Encode(Cert(l)) + l.trailing && l.key.oidTag == 0x06
    && Some(oids.signature) == DecodeOid(l.signature.oid) && Some(oids.key) == DecodeOid(l.key.oid)
    && Writable(rules, oids.signature) && Writable(rules, oids.key)
  }

  /** Exactness of the walk: it finds these two OIDs if and only if the bytes are laid out so. */
  lemma {:induction false} WalksExactlyCertificates(rules: Rules, der: bytes, oids: Oids)
    ensures CertAlgorithmOids(rules, der) == Done(oids) <==> exists l :: IsWalkable(rules, der, oids, l)
  {
    hide CertAlgorithmOids, IsWalkable;
    if CertAlgorithmOids(rules, der) == Done(oids) {
      var l := WalkIs(rules, der);
    }
    forall l | IsWalkable(rules, der, oids, l) ensures CertAlgorithmOids(rules, der) == Done(oids) {
      WalkableWalks(rules, der, oids, l);
    }
  }

  lemma {:induction false} WalkableWalks(rules: Rules, der: bytes, oids: Oids, l: Layout)
    requires IsWalkable(rules, der, oids, l)
    ensures CertAlgorithmOids(rules, der) == Done(oids)
  {
    hide CertAlgorithmOids, EncodableCert, Encode, Cert, DecodeOid, Writable;
    WalkIsExact(rules, l);
  }

  lemma {:induction false} WalkFound(rules: Rules, der: bytes) returns (f: Found)
    requires CertAlgorithmOids(rules, der).Done?
    ensures OpenTbs(der).Some? && OpenTbs(der).value.start <= OpenTbs(der).value.stop == f.end <= |der|
    ensures SkipVersion(der, OpenTbs(der).value.start, f.end) == Some(f.pos)
    ensures IsFound(rules, der, f, CertAlgorithmOids(rules, der).value.signature)
    ensures f.spki.tag == SEQUENCE && f.spki.start <= f.spki.stop <= f.end
    ensures AlgorithmOid(rules, der, f.spki.start, f.spki.stop).Done?
    ensures AlgorithmOid(rules, der, f.spki.start, f.spki.stop).value.0 == CertAlgorithmOids(rules, der).value.key
  {
    hide ReadTlv, OpenTbs, AlgorithmOid, SkipVersion;
    var tbs := OpenTbs(der).value;
    var end := tbs.stop;
    var pos := SkipVersion(der, tbs.start, end).value;
    var serial := ReadTlv(der, pos, end).value;
    var next := AlgorithmOid(rules, der, serial.stop, end).value.1;
    var issuer := ReadTlv(der, next, end).value;
    var validity := ReadTlv(der, issuer.stop, end).value;
    var subject := ReadTlv(der, validity.stop, end).value;
    f := Found(pos, serial, next, issuer, validity, subject, ReadTlv(der, subject.stop, end).value, end);
  }

  lemma {:induction false} WalkIs(rules: Rules, der: bytes) returns (l: Layout)
    requires CertAlgorithmOids(rules, der).Done?
    ensures IsWalkable(rules, der, CertAlgorithmOids(rules, der).value, l)
  {
    hide CertAlgorithmOids, ReadTlv, OpenTbs, Encode, Encodable, DecodeOid, Writable, AlgorithmOid, SkipVersion;
    hide IsFound, EncodableCert, Cert;
    var f := WalkFound(rules, der);
    var s := f.spki;
    var key := SignatureIs(rules, der, s.start, s.stop);
    var next := AlgorithmOid(rules, der, s.start, s.stop).value.1;
    Joined(der, s.start, next, s.stop);
    l := LayoutIs(rules, der, f, CertAlgorithmOids(rules, der).value.signature, key, der[next..s.stop]);
    OidIs(rules, l.signature);
    OidIs(rules, l.key);
  }

  lemma {:induction false} OidIs(rules: Rules, a: Algorithm)
    requires EncodableAlgorithm(a) && OidOf(rules, a).Done?
    ensures DecodeOid(a.oid) == Some(OidOf(rules, a).value) && Writable(rules, OidOf(rules, a).value)
  {
    hide DecodeOid, Writable, Encodable;
  }

  // ---- The full parse ----

  lemma {:induction false} TimesAre(rules: Rules, d: bytes, start: nat, stop: nat)
    returns (notBefore: Element, notAfter: Element, times: bytes)
    requires start <= stop <= |d| && Validity(rules, d, start, stop).Done?
    ensures Encodable(notBefore) && Encodable(notAfter)
    ensures d[start..stop] == Encode(notBefore) + (Encode(notAfter) + times)
  {
    hide ReadTlv, Encode, Encodable, DerTime;
    var t1 := ReadTlv(d, start, stop).value;
    var t2 := ReadTlv(d, t1.stop, stop).value;
    notBefore := ElementIs(d, start, stop);
    notAfter := ElementIs(d, t1.stop, stop);
    times := d[t2.stop..stop];
    Joined(d, t1.stop, t2.stop, stop);
    Joined(d, start, t1.stop, stop);
  }

  lemma {:induction false} ParseFound(rules: Rules, der: bytes) returns (f: Found, signature: Oid)
    requires ParseCertificate(rules, der).Done?
    ensures OpenTbs(der).Some? && OpenTbs(der).value.start <= OpenTbs(der).value.stop == f.end <= |der|
    ensures SkipVersion(der, OpenTbs(der).value.start, f.end) == Some(f.pos)
    ensures IsFound(rules, der, f, signature) && f.serial.tag == INTEGER
    ensures f.issuer.tag == SEQUENCE && f.issuer.start <= f.issuer.stop <= f.end
    ensures f.validity.tag == SEQUENCE && f.validity.start <= f.validity.stop <= f.end
    ensures f.subject.tag == SEQUENCE && f.subject.start <= f.subject.stop <= f.end
    ensures f.spki.tag == SEQUENCE && f.spki.start <= f.spki.stop <= f.end
    ensures ReadName(rules, der, f.issuer.start, f.issuer.stop).Done?
    ensures Validity(rules, der, f.validity.start, f.validity.stop).Done?
    ensures ReadName(rules, der, f.subject.start, f.subject.stop).Done?
    ensures SpkiKey(rules, der, f.spki.start, f.spki.stop).Done?
    ensures ReadTail(rules, der, f.spki.stop, f.end, map[]).Done?
  {
    hide ReadTlv, OpenTbs, AlgorithmOid, SkipVersion, Validity, ReadName, SpkiKey, ReadTail, IsCa, Categorise;
    var tbs := OpenTbs(der).value;
    var end := tbs.stop;
    var pos := SkipVersion(der, tbs.start, end).value;
    var serial := ReadTlv(der, pos, end).value;
    var algorithm := AlgorithmOid(rules, der, serial.stop, end).value;
    signature := algorithm.0;
    var next := algorithm.1;
    var issuer := ReadTlv(der, next, end).value;
    var validity := ReadTlv(der, issuer.stop, end).value;
    var subject := ReadTlv(der, validity.stop, end).value;
    f := Found(pos, serial, next, issuer, validity, subject, ReadTlv(der, subject.stop, end).value, end);
  }

  // The bytes are this certificate.
  ghost predicate IsCertificate(rules: Rules, der: bytes, fs: Fields) {
    FitsCertificate(rules, fs) && der == CertificateBytes(rules, fs)
  }

  lemma {:induction false} CertificateIs(rules: Rules, der: bytes) returns (fs: Fields)
    requires ParseCertificate(rules, der).Done?
    ensures IsCertificate(rules, der, fs)
  {
    hide ParseCertificate, ReadTlv, OpenTbs, Encode, DecodeOid, AlgorithmOid, SkipVersion, IsFound, EncodableCert, Cert;
    hide Validity, ReadName, SpkiKey, ReadTail, NameBytes, TailBytes, FitsName, FitTails, FitsKey, KeyBits,
         KeyParameters;
    var f, signature := ParseFound(rules, der);
    var issuer := NameIs(rules, der, f.issuer.start, f.issuer.stop);
    var notBefore, notAfter, times := TimesAre(rules, der, f.validity.start, f.validity.stop);
    var subject := NameIs(rules, der, f.subject.start, f.subject.stop);
    var key, k := KeyIs(rules, der, f.spki.start, f.spki.stop);
    var tail := TailIs(rules, der, f.spki.stop, f.end, map[]);
    var l := LayoutIs(rules, der, f, signature, key, KeyBits(rules, DecodeOid(key.oid).value, k));
    fs := Fields(l.form, l.tbsForm, l.version, l.serial, l.signature, l.issuer.form, issuer, l.validity.form,
                 notBefore, notAfter, times, l.subject.form, subject, l.spkiForm, key, k, tail, l.after, l.trailing);
    assert ToLayout(rules, fs) == l;
  }

  /** Exactness of the full parse: it gives this certificate if and only if the bytes are laid out as one that says
      just that. */
  lemma {:induction false} ReadsExactlyCertificates(rules: Rules, der: bytes, c: Certificate)
    ensures ParseCertificate(rules, der) == Done(c) <==>
            exists fs :: IsCertificate(rules, der, fs) && Contents(rules, fs) == Done(c)
  {
    hide ParseCertificate, FitsCertificate, CertificateBytes, Contents;
    if ParseCertificate(rules, der) == Done(c) {
      var fs := CertificateIs(rules, der);
      ParseIsExact(rules, fs);
    }
    forall fs | IsCertificate(rules, der, fs) ensures ParseCertificate(rules, der) == Contents(rules, fs) {
      ParseIsExact(rules, fs);
    }
  }

  // ---- basicConstraints ----

  // The constraints hold the element s, and in it, if anything, the element `first`.
  ghost predicate Constrains(bc: bytes, s: Element, extra: bytes, first: Option<Element>, more: bytes) {
    && Encodable(s) && bc == Encode(s) + extra && (first.Some? ==> Encodable(first.value))
    && s.value == if first.Some? then Encode(first.value) + more else []
  }

  // What makes a CA: constraints whose SEQUENCE starts with a BOOLEAN that is not zero.
  ghost predicate SaysCa(exts: Extensions, ca: bool) {
    if ID_BASIC_CONSTRAINTS !in exts || exts[ID_BASIC_CONSTRAINTS] == [] then !ca
    else
      var bc := exts[ID_BASIC_CONSTRAINTS];
      || (exists s, extra | Encodable(s) :: bc == Encode(s) + extra && (s.tag != 0x30 || s.value == []) && !ca)
      || (exists s, extra, first, more | Constrains(bc, s, extra, Some(first), more) ::
            s.tag == 0x30 && ca == (first.tag == 0x01 && first.value != [] && first.value[0] != 0))
  }

  lemma {:induction false} CaReads(bc: bytes, exts: Extensions, s: Element, extra: bytes)
    requires ID_BASIC_CONSTRAINTS in exts && exts[ID_BASIC_CONSTRAINTS] == bc
    requires Encodable(s) && bc == Encode(s) + extra && (s.tag != 0x30 || s.value == [])
    ensures IsCa(exts) == Some(false)
  {
    hide ReadTlv, Encode, Encodable;
    assert bc[0..|bc|] == bc;
    ElementReads(bc, 0, |bc|, s, extra);
    EncodedNonempty(s);
  }

  /** Exactness of basicConstraints, whatever bytes they are. */
  lemma {:induction false} CaIsExact(exts: Extensions, ca: bool)
    ensures IsCa(exts) == Some(ca) <==> SaysCa(exts, ca)
  {
    hide IsCa, Constrains, Encode, Encodable;
    if ID_BASIC_CONSTRAINTS !in exts || exts[ID_BASIC_CONSTRAINTS] == [] {
      NoConstraints(exts);
    } else {
      var bc := exts[ID_BASIC_CONSTRAINTS];
      forall s, extra | Encodable(s) && bc == Encode(s) + extra && (s.tag != 0x30 || s.value == [])
        ensures IsCa(exts) == Some(false)
      {
        CaReads(bc, exts, s, extra);
      }
      forall s, extra, first, more | Constrains(bc, s, extra, Some(first), more) && s.tag == 0x30
        ensures IsCa(exts) == Some(first.tag == 0x01 && first.value != [] && first.value[0] != 0)
      {
        ConstraintsRead(exts, s, extra, first, more);
      }
      if IsCa(exts) == Some(ca) {
        ConstraintsAre(exts, ca);
      }
    }
  }

  lemma {:induction false} NoConstraints(exts: Extensions)
    requires ID_BASIC_CONSTRAINTS !in exts || exts[ID_BASIC_CONSTRAINTS] == []
    ensures IsCa(exts) == Some(false)
  {
    hide ReadTlv;
  }

  lemma {:induction false} ConstraintsRead(exts: Extensions, s: Element, extra: bytes, first: Element, more: bytes)
    requires ID_BASIC_CONSTRAINTS in exts && s.tag == 0x30
    requires Constrains(exts[ID_BASIC_CONSTRAINTS], s, extra, Some(first), more)
    ensures IsCa(exts) == Some(first.tag == 0x01 && first.value != [] && first.value[0] != 0)
  {
    hide IsCa, Encode, Encodable;
    IsCaMeans(exts, s, Some(first), more, extra);
  }

  lemma {:induction false} ConstraintsAre(exts: Extensions, ca: bool)
    requires ID_BASIC_CONSTRAINTS in exts && exts[ID_BASIC_CONSTRAINTS] != [] && IsCa(exts) == Some(ca)
    ensures SaysCa(exts, ca)
  {
    hide ReadTlv, Encode, Encodable;
    var bc := exts[ID_BASIC_CONSTRAINTS];
    var t := ReadTlv(bc, 0, |bc|).value;
    var s := ElementIs(bc, 0, |bc|);
    var extra := bc[t.stop..];
    Joined(bc, 0, t.stop, |bc|);
    assert bc[0..|bc|] == bc && bc[t.stop..|bc|] == extra;
    assert bc == Encode(s) + extra;
    if t.tag == SEQUENCE && t.start < t.stop {
      var b := ReadTlv(bc, t.start, t.stop).value;
      var first := ElementIs(bc, t.start, t.stop);
      var more := bc[b.stop..t.stop];
      Joined(bc, t.start, b.stop, t.stop);
      assert Constrains(bc, s, extra, Some(first), more);
      if first.value != [] {
        assert bc[b.start..b.stop][0] == bc[b.start];
      }
    }
  }
}
