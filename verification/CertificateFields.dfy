/** The full certificate parse, on every certificate laid out as section 4.1 of RFC 5280 describes. */
module CertificateFields {
  import opened Bytes
  import opened Options
  import opened Der
  import opened Certificates
  import opened CertificateWalk

  // In the layouts tags are given as X.680 and RFC 5280 number them: 0x01 BOOLEAN, 0x02 INTEGER, 0x03 BIT STRING,
  // 0x04 OCTET STRING, 0x06 OBJECT IDENTIFIER, 0x30 SEQUENCE, 0x31 SET, 0xA0 version, 0xA3 extensions.

  // id-ecPublicKey of RFC 5480 and id-ce-basicConstraints of RFC 5280.
  const ID_EC_KEY: Oid := [1, 2, 840, 10045, 2, 1]
  const ID_BASIC_CONSTRAINTS: Oid := [2, 5, 29, 19]

  // ---- Names ----

  // SEQUENCE { type, value } with anything behind the value.
  datatype AttributeLayout = AttributeLayout(form: nat, oidForm: nat, oid: bytes, value: Element, extra: bytes)

  // SEQUENCE { type, value, extra }, given that type and value fit their lengths.
  function AttributeElement(a: AttributeLayout): Element
    requires Encodable(Element(0x06, a.oidForm, a.oid)) && Encodable(a.value)
  {
    Element(0x30, a.form, Encode(Element(0x06, a.oidForm, a.oid)) + (Encode(a.value) + a.extra))
  }

  predicate FitsAttribute(a: AttributeLayout) {
    && Encodable(Element(0x06, a.oidForm, a.oid)) && Encodable(a.value)
    && DecodeOid(a.oid).Some? && Encodable(AttributeElement(a))
  }

  ghost predicate FitAttributes(la: seq<AttributeLayout>) {
    forall i | 0 <= i < |la| :: FitsAttribute(la[i])
  }

  function AttributeBytes(la: seq<AttributeLayout>): bytes
    requires FitAttributes(la)
  {
    if la == [] then [] else Encode(AttributeElement(la[0])) + AttributeBytes(la[1..])
  }

  function AttributeOf(rules: Rules, a: AttributeLayout): Outcome<Attribute> {
    var oid :- OidText(rules, a.oid);
    Done(Attribute(oid, a.value.tag, a.value.value))
  }

  function AttributesOf(rules: Rules, la: seq<AttributeLayout>): Outcome<seq<Attribute>> {
    if la == [] then Done([])
    else
      var a :- AttributeOf(rules, la[0]);
      var rest :- AttributesOf(rules, la[1..]);
      Done([a] + rest)
  }

  lemma {:induction false} AttributeReads(rules: Rules, buf: bytes, pos: nat, end: nat, a: AttributeLayout, rest: bytes)
    requires FitsAttribute(a) && end <= |buf|
    requires var s := Encode(AttributeElement(a)); Lies(buf, pos, s + rest) && pos + |s| <= end
    ensures var next := pos + |Encode(AttributeElement(a))|;
            && ReadAttribute(rules, buf, pos, end) == With(AttributeOf(rules, a), next)
            && Lies(buf, next, rest)
  {
    hide Encode, ReadTlv, DecodeOid, OidText, Lies, Encodable;
    ElementReads(buf, pos, end, AttributeElement(a), rest);
    var s := ReadTlv(buf, pos, end).value;
    ElementReads(buf, s.start, s.stop, Element(0x06, a.oidForm, a.oid), Encode(a.value) + a.extra);
    var o := ReadTlv(buf, s.start, s.stop).value;
    LiesIs(buf, o.start, a.oid);
    ElementReads(buf, o.stop, s.stop, a.value, a.extra);
    LiesIs(buf, ReadTlv(buf, o.stop, s.stop).value.start, a.value.value);
  }

  lemma {:induction false} EncodedNonempty(e: Element)
    requires Encodable(e)
    ensures Encode(e) != []
  {
  }

  lemma {:induction false} AttributesRead(rules: Rules, buf: bytes, pos: nat, end: nat, la: seq<AttributeLayout>)
    requires FitAttributes(la) && end <= |buf| && Lies(buf, pos, AttributeBytes(la))
    requires end == pos + |AttributeBytes(la)|
    ensures ReadAttributes(rules, buf, pos, end) == AttributesOf(rules, la)
    decreases |la|
  {
    hide Encode, DecodeOid, Lies, Encodable, ReadAttribute, AttributeOf;
    if la != [] {
      assert FitsAttribute(la[0]);
      EncodedNonempty(AttributeElement(la[0]));
      AttributeReads(rules, buf, pos, end, la[0], AttributeBytes(la[1..]));
      AttributesRead(rules, buf, pos + |Encode(AttributeElement(la[0]))|, end, la[1..]);
    }
  }

  // SET OF attributes.
  datatype RdnLayout = RdnLayout(form: nat, attributes: seq<AttributeLayout>)

  type NameLayout = seq<RdnLayout>

  function RdnElement(r: RdnLayout): Element
    requires FitAttributes(r.attributes)
  {
    Element(0x31, r.form, AttributeBytes(r.attributes))
  }

  ghost predicate FitsRdn(r: RdnLayout) {
    FitAttributes(r.attributes) && Encodable(RdnElement(r))
  }

  ghost predicate FitsName(n: NameLayout) {
    forall i | 0 <= i < |n| :: FitsRdn(n[i])
  }

  function NameBytes(n: NameLayout): bytes
    requires FitsName(n)
  {
    if n == [] then [] else Encode(RdnElement(n[0])) + NameBytes(n[1..])
  }

  function NameOf(rules: Rules, n: NameLayout): Outcome<Name> {
    if n == [] then Done([])
    else
      var rdn :- AttributesOf(rules, n[0].attributes);
      var rest :- NameOf(rules, n[1..]);
      Done([rdn] + rest)
  }

  /** A name reads as exactly its attributes, in order, or raises where the type of one cannot be written out. */
  lemma {:induction false} NameReads(rules: Rules, buf: bytes, pos: nat, end: nat, n: NameLayout)
    requires FitsName(n) && end <= |buf| && Lies(buf, pos, NameBytes(n)) && end == pos + |NameBytes(n)|
    ensures ReadName(rules, buf, pos, end) == NameOf(rules, n)
    decreases |n|
  {
    hide Encode, ReadTlv, Lies, Encodable, AttributesOf, AttributeBytes, ReadAttributes, FitAttributes;
    if n != [] {
      assert FitsRdn(n[0]);
      ElementReads(buf, pos, end, RdnElement(n[0]), NameBytes(n[1..]));
      var s := ReadTlv(buf, pos, end).value;
      AttributesRead(rules, buf, s.start, s.stop, n[0].attributes);
      NameReads(rules, buf, s.stop, end, n[1..]);
    }
  }

  // ---- Extensions ----

  // { id, critical, value } with anything behind the value; it should be a SEQUENCE, which the parse does not check.
  datatype ExtensionLayout = ExtensionLayout(tag: byte, form: nat, id: Element, critical: Option<Element>,
                                             value: Element, extra: bytes)

  function CriticalBytes(c: Option<Element>): bytes
    requires c.Some? ==> Encodable(c.value)
  {
    if c.Some? then Encode(c.value) else []
  }

  predicate FitExtensionParts(x: ExtensionLayout) {
    && Encodable(x.id) && DecodeOid(x.id.value).Some? && Encodable(x.value)
    && if x.critical.Some? then Encodable(x.critical.value) && x.critical.value.tag == 0x01
       else x.value.tag != 0x01
  }

  function ExtensionElement(x: ExtensionLayout): Element
    requires FitExtensionParts(x)
  {
    Element(x.tag, x.form, Encode(x.id) + (CriticalBytes(x.critical) + (Encode(x.value) + x.extra)))
  }

  predicate FitsExtension(x: ExtensionLayout) {
    FitExtensionParts(x) && Encodable(ExtensionElement(x))
  }

  ghost predicate FitExtensions(xs: seq<ExtensionLayout>) {
    forall i | 0 <= i < |xs| :: FitsExtension(xs[i])
  }

  function ExtensionBytes(xs: seq<ExtensionLayout>): bytes
    requires FitExtensions(xs)
  {
    if xs == [] then [] else Encode(ExtensionElement(xs[0])) + ExtensionBytes(xs[1..])
  }

  function AddExtension(rules: Rules, out: Extensions, x: ExtensionLayout): Outcome<Extensions> {
    var id :- OidText(rules, x.id.value);
    Done(if x.value.tag == 0x04 then out[id := x.value.value] else out)
  }

  function ExtensionsOf(rules: Rules, xs: seq<ExtensionLayout>, out: Extensions): Outcome<Extensions> {
    if xs == [] then Done(out)
    else
      var out1 :- AddExtension(rules, out, xs[0]);
      ExtensionsOf(rules, xs[1..], out1)
  }

  // The value of an extension, and the critical flag before it if there is one.
  lemma {:induction false} ExtensionValueReads(buf: bytes, pos: nat, end: nat, x: ExtensionLayout) returns (n: Tlv)
    requires FitExtensionParts(x) && end <= |buf|
    requires var s := CriticalBytes(x.critical) + (Encode(x.value) + x.extra); Lies(buf, pos, s) && pos + |s| <= end
    ensures var first := ReadTlv(buf, pos, end);
            && first.Some?
            && (if first.value.tag == BOOLEAN then ReadTlv(buf, first.value.stop, end) else first) == Some(n)
            && n.tag == x.value.tag && buf[n.start..n.stop] == x.value.value
  {
    hide Encode, ReadTlv, DecodeOid, Lies, Encodable;
    var tail := Encode(x.value) + x.extra;
    var at := pos;
    if x.critical.Some? {
      ElementReads(buf, pos, end, x.critical.value, tail);
      at := ReadTlv(buf, pos, end).value.stop;
    } else {
      assert CriticalBytes(x.critical) + tail == tail;
    }
    ElementReads(buf, at, end, x.value, x.extra);
    n := ReadTlv(buf, at, end).value;
    LiesIs(buf, n.start, x.value.value);
  }

  lemma {:induction false} ExtensionReads(rules: Rules, buf: bytes, pos: nat, end: nat, x: ExtensionLayout, rest: bytes,
                                          out: Extensions)
    requires FitsExtension(x) && end <= |buf|
    requires var s := Encode(ExtensionElement(x)); Lies(buf, pos, s + rest) && pos + |s| <= end
    ensures var next := pos + |Encode(ExtensionElement(x))|;
            ReadExtension(rules, buf, pos, end, out) == With(AddExtension(rules, out, x), next) && Lies(buf, next, rest)
  {
    hide Encode, ReadTlv, DecodeOid, OidText, Lies, Encodable, CriticalBytes;
    ElementReads(buf, pos, end, ExtensionElement(x), rest);
    var s := ReadTlv(buf, pos, end).value;
    ElementReads(buf, s.start, s.stop, x.id, CriticalBytes(x.critical) + (Encode(x.value) + x.extra));
    var o := ReadTlv(buf, s.start, s.stop).value;
    LiesIs(buf, o.start, x.id.value);
    var n := ExtensionValueReads(buf, o.stop, s.stop, x);
  }

  lemma {:induction false} ExtensionsRead(rules: Rules, buf: bytes, pos: nat, end: nat, xs: seq<ExtensionLayout>,
                                          out: Extensions)
    requires FitExtensions(xs) && end <= |buf| && Lies(buf, pos, ExtensionBytes(xs))
    requires end == pos + |ExtensionBytes(xs)|
    ensures ReadExtensionList(rules, buf, pos, end, out) == ExtensionsOf(rules, xs, out)
    decreases |xs|
  {
    hide Encode, Lies, Encodable, ReadExtension, AddExtension;
    if xs != [] {
      assert FitsExtension(xs[0]);
      EncodedNonempty(ExtensionElement(xs[0]));
      ExtensionReads(rules, buf, pos, end, xs[0], ExtensionBytes(xs[1..]), out);
      var out1 := AddExtension(rules, out, xs[0]);
      if out1.Done? {
        ExtensionsRead(rules, buf, pos + |Encode(ExtensionElement(xs[0]))|, end, xs[1..], out1.value);
      }
    }
  }

  // The id, where the extension is one that is kept.
  function KeptId(x: ExtensionLayout): Option<Oid> {
    if x.value.tag == 0x04 then DecodeOid(x.id.value) else None
  }

  /** The last extension with an id is the one that counts. */
  lemma {:induction false} LastExtensionWins(rules: Rules, xs: seq<ExtensionLayout>, out: Extensions, i: nat)
    requires ExtensionsOf(rules, xs, out).Done? && i < |xs| && KeptId(xs[i]).Some?
    requires forall j | i < j < |xs| :: KeptId(xs[j]) != KeptId(xs[i])
    ensures var exts, id := ExtensionsOf(rules, xs, out).value, KeptId(xs[i]).value;
            id in exts && exts[id] == xs[i].value.value
    decreases |xs|
  {
    hide DecodeOid, Writable;
    var id := KeptId(xs[i]).value;
    var rest, out1 := xs[1..], AddExtension(rules, out, xs[0]).value;
    if i == 0 {
      OthersStay(rules, rest, out1, id);
    } else {
      assert rest[i - 1] == xs[i];
      forall j | i - 1 < j < |rest| ensures KeptId(rest[j]) != KeptId(xs[i]) {
        assert rest[j] == xs[j + 1];
      }
      LastExtensionWins(rules, rest, out1, i - 1);
    }
  }

  lemma {:induction false} OthersStay(rules: Rules, xs: seq<ExtensionLayout>, out: Extensions, id: Oid)
    requires ExtensionsOf(rules, xs, out).Done? && id in out
    requires forall j | 0 <= j < |xs| :: KeptId(xs[j]) != Some(id)
    ensures var exts := ExtensionsOf(rules, xs, out).value;
            id in exts && exts[id] == out[id]
    decreases |xs|
  {
    hide DecodeOid, Writable;
    if xs != [] {
      assert KeptId(xs[0]) != Some(id);
      OthersStay(rules, xs[1..], AddExtension(rules, out, xs[0]).value, id);
    }
  }

  // ---- What follows the key ----

  // [3] { SEQUENCE OF extensions } with anything behind the list, or any other element.
  datatype TailLayout =
    | Other(element: Element)
    | ExtensionsField(form: nat, listForm: nat, extensions: seq<ExtensionLayout>, extra: bytes)

  ghost predicate FitsTail(t: TailLayout) {
    match t
    case Other(e) => Encodable(e) && e.tag != 0xA3
    case ExtensionsField(form, listForm, xs, extra) =>
      FitExtensions(xs) && Encodable(ListElement(listForm, xs)) && Encodable(FieldElement(form, listForm, xs, extra))
  }

  function ListElement(listForm: nat, xs: seq<ExtensionLayout>): Element
    requires FitExtensions(xs)
  {
    Element(0x30, listForm, ExtensionBytes(xs))
  }

  function FieldElement(form: nat, listForm: nat, xs: seq<ExtensionLayout>, extra: bytes): Element
    requires FitExtensions(xs) && Encodable(ListElement(listForm, xs))
  {
    Element(0xA3, form, Encode(ListElement(listForm, xs)) + extra)
  }

  function TailElement(t: TailLayout): Element
    requires FitsTail(t)
  {
    match t
    case Other(e) => e
    case ExtensionsField(form, listForm, xs, extra) => FieldElement(form, listForm, xs, extra)
  }

  ghost predicate FitTails(ts: seq<TailLayout>) {
    forall i | 0 <= i < |ts| :: FitsTail(ts[i])
  }

  function TailBytes(ts: seq<TailLayout>): bytes
    requires FitTails(ts)
  {
    if ts == [] then [] else Encode(TailElement(ts[0])) + TailBytes(ts[1..])
  }

  // The last extensions field is the one that counts.
  function TailOf(rules: Rules, ts: seq<TailLayout>, exts: Extensions): Outcome<Extensions> {
    if ts == [] then Done(exts)
    else
      var exts1 :- if ts[0].Other? then Done(exts) else ExtensionsOf(rules, ts[0].extensions, map[]);
      TailOf(rules, ts[1..], exts1)
  }

  lemma {:induction false} FieldReads(rules: Rules, buf: bytes, start: nat, stop: nat, t: TailLayout)
    requires t.ExtensionsField? && FitsTail(t) && stop <= |buf|
    requires Lies(buf, start, TailElement(t).value) && stop == start + |TailElement(t).value|
    ensures ReadExtensions(rules, buf, start, stop) == ExtensionsOf(rules, t.extensions, map[])
  {
    hide Encode, ReadTlv, Lies, Encodable, ExtensionBytes, ExtensionsOf, ReadExtensionList, FitExtensions;
    ElementReads(buf, start, stop, ListElement(t.listForm, t.extensions), t.extra);
    var s := ReadTlv(buf, start, stop).value;
    ExtensionsRead(rules, buf, s.start, s.stop, t.extensions, map[]);
  }

  lemma {:induction false} TailReads(rules: Rules, buf: bytes, pos: nat, end: nat, ts: seq<TailLayout>,
                                     exts: Extensions)
    requires FitTails(ts) && end <= |buf| && Lies(buf, pos, TailBytes(ts)) && end == pos + |TailBytes(ts)|
    ensures ReadTail(rules, buf, pos, end, exts) == TailOf(rules, ts, exts)
    decreases |ts|
  {
    hide Encode, ReadTlv, Lies, Encodable, ReadExtensions, ExtensionsOf, ExtensionBytes, FitExtensions;
    if ts != [] {
      var t := ts[0];
      assert FitsTail(t);
      ElementReads(buf, pos, end, TailElement(t), TailBytes(ts[1..]));
      var e := ReadTlv(buf, pos, end).value;
      if t.ExtensionsField? {
        FieldReads(rules, buf, e.start, e.stop, t);
      }
      var exts1 := if t.Other? then Done(exts) else ExtensionsOf(rules, t.extensions, map[]);
      if exts1.Done? {
        TailReads(rules, buf, e.stop, end, ts[1..], exts1.value);
      }
    }
  }

  // ---- basicConstraints ----

  /** A basicConstraints value marks a CA if and only if its SEQUENCE starts with a BOOLEAN that is not zero;
      without one, or with an empty SEQUENCE, it does not. */
  lemma {:induction false} IsCaMeans(exts: Extensions, s: Element, first: Option<Element>, more: bytes, extra: bytes)
    requires Encodable(s) && (first.Some? ==> Encodable(first.value))
    requires s.tag == 0x30 && s.value == (if first.Some? then Encode(first.value) + more else [])
    requires ID_BASIC_CONSTRAINTS in exts && exts[ID_BASIC_CONSTRAINTS] == Encode(s) + extra
    ensures IsCa(exts) ==
            Some(first.Some? && first.value.tag == 0x01 && first.value.value != [] && first.value.value[0] != 0)
  {
    hide Encode, ReadTlv, Encodable;
    var bc := exts[BASIC_CONSTRAINTS];
    assert bc[0..|bc|] == bc;
    ElementReads(bc, 0, |bc|, s, extra);
    var t := ReadTlv(bc, 0, |bc|).value;
    if first.Some? {
      var b := first.value;
      ElementReads(bc, t.start, t.stop, b, more);
      var u := ReadTlv(bc, t.start, t.stop).value;
      if b.value != [] {
        assert bc[u.start] == bc[u.start..u.start + |b.value|][0];
      }
    }
  }

  // ---- The key ----

  // The key's parameters and bits.  What the parse looks into is spelled out: the parameter of an EC key, and
  // as much of an RSA key's bits as is a BIT STRING of a SEQUENCE.
  datatype KeyLayout =
    | AnyKey(parameters: bytes, bits: bytes)
    | EcKey(parameter: Element, extra: bytes, bits: bytes)
    | RsaNoBits(parameters: bytes, element: Element, extra: bytes)
    | RsaNoKey(parameters: bytes, bitsForm: nat, unused: byte, element: Element, spare: bytes, extra: bytes)
    | RsaModulus(parameters: bytes, bitsForm: nat, unused: byte, keyForm: nat, modulus: Element,
                 exponent: bytes, spare: bytes, extra: bytes)

  predicate NamesRsa(name: string) {
    name in {"RSA", "RSASSA-PSS"}
  }

  lemma {:induction false} RsaNames(name: string)
    ensures IsRsa(name) <==> NamesRsa(name)
  {
  }

  predicate FitsKey(rules: Rules, oid: Oid, k: KeyLayout) {
    var rsa := NamesRsa(rules.algorithm(oid).0) && (oid == ID_EC_KEY ==> !k.EcKey? && k.parameters == []);
    match k
    case AnyKey(parameters, _) => !NamesRsa(rules.algorithm(oid).0) && (oid == ID_EC_KEY ==> parameters == [])
    case EcKey(p, _, _) => oid == ID_EC_KEY && Encodable(p) && (p.tag == 0x06 ==> DecodeOid(p.value).Some?)
    case RsaNoBits(_, e, _) => rsa && Encodable(e) && (e.tag != 0x03 || e.value == [])
    case RsaNoKey(_, bitsForm, unused, e, spare, _) =>
      && rsa && Encodable(e) && e.tag != 0x30 && Encodable(BitString(bitsForm, unused, e, spare))
    case RsaModulus(_, bitsForm, unused, keyForm, m, exponent, spare, _) =>
      && rsa && Encodable(m) && Encodable(RsaPublicKey(keyForm, m, exponent))
      && Encodable(BitString(bitsForm, unused, RsaPublicKey(keyForm, m, exponent), spare))
  }

  function BitString(form: nat, unused: byte, inner: Element, spare: bytes): Element
    requires Encodable(inner)
  {
    Element(0x03, form, [unused] + (Encode(inner) + spare))
  }

  function RsaPublicKey(form: nat, modulus: Element, exponent: bytes): Element
    requires Encodable(modulus)
  {
    Element(0x30, form, Encode(modulus) + exponent)
  }

  function KeyParameters(rules: Rules, oid: Oid, k: KeyLayout): bytes
    requires FitsKey(rules, oid, k)
  {
    if k.EcKey? then Encode(k.parameter) + k.extra else k.parameters
  }

  function KeyBits(rules: Rules, oid: Oid, k: KeyLayout): bytes
    requires FitsKey(rules, oid, k)
  {
    match k
    case AnyKey(_, bits) => bits
    case EcKey(_, _, bits) => bits
    case RsaNoBits(_, e, extra) => Encode(e) + extra
    case RsaNoKey(_, bitsForm, unused, e, spare, extra) => Encode(BitString(bitsForm, unused, e, spare)) + extra
    case RsaModulus(_, bitsForm, unused, keyForm, m, exponent, spare, extra) =>
      Encode(BitString(bitsForm, unused, RsaPublicKey(keyForm, m, exponent), spare)) + extra
  }

  function KeyOf(rules: Rules, value: bytes, k: KeyLayout): Outcome<Key> {
    var oid :- OidText(rules, value);
    var (name, size) := rules.algorithm(oid);
    match k
    case EcKey(p, _, _) =>
      if p.tag != 0x06 then Done(Key(oid, name, size))
      else
        var id :- OidText(rules, p.value);
        var (curve, bits) := rules.curve(id);
        Done(Key(oid, "EC " + curve, bits))
    case RsaModulus(_, _, _, _, m, _, _, _) =>
      Done(Key(oid, name, if m.tag == 0x02 then Some(BitLength(BigEndian(m.value))) else size))
    case _ => Done(Key(oid, name, size))
  }

  // The element inside a bit string.
  lemma {:induction false} BitsRead(buf: bytes, pos: nat, end: nat, form: nat, unused: byte, inner: Element,
                                    spare: bytes, extra: bytes)
    returns (b: Tlv, t: Tlv)
    requires Encodable(inner) && Encodable(BitString(form, unused, inner, spare)) && end <= |buf|
    requires var s := Encode(BitString(form, unused, inner, spare)) + extra; Lies(buf, pos, s) && end == pos + |s|
    ensures ReadTlv(buf, pos, end) == Some(b) && b.tag == BIT_STRING && b.start < b.stop <= |buf|
    ensures ReadTlv(buf, b.start + 1, b.stop) == Some(t) && t.tag == inner.tag
    ensures t.start + |inner.value| == t.stop <= |buf| && Lies(buf, t.start, inner.value)
  {
    hide Encode, ReadTlv, Lies, Encodable;
    ElementReads(buf, pos, end, BitString(form, unused, inner, spare), extra);
    b := ReadTlv(buf, pos, end).value;
    LiesSplit(buf, b.start, [unused], Encode(inner) + spare);
    ElementReads(buf, b.start + 1, b.stop, inner, spare);
    t := ReadTlv(buf, b.start + 1, b.stop).value;
  }

  lemma {:induction false} ModulusReads(rules: Rules, key: Key, buf: bytes, pos: nat, end: nat, k: KeyLayout)
    requires k.RsaModulus? && FitsKey(rules, key.oid, k) && end <= |buf|
    requires var s := KeyBits(rules, key.oid, k); Lies(buf, pos, s) && end == pos + |s|
    ensures RsaKey(key, buf, pos, end) ==
            Some(if k.modulus.tag == INTEGER then key.(size := Some(BitLength(BigEndian(k.modulus.value)))) else key)
  {
    hide Encode, ReadTlv, Lies, Encodable, BitLength, BigEndian, IsRsa, BitString;
    var s := RsaPublicKey(k.keyForm, k.modulus, k.exponent);
    var b, t := BitsRead(buf, pos, end, k.bitsForm, k.unused, s, k.spare, k.extra);
    ElementReads(buf, t.start, t.stop, k.modulus, k.exponent);
    LiesIs(buf, ReadTlv(buf, t.start, t.stop).value.start, k.modulus.value);
  }

  lemma {:induction false} NoModulusReads(rules: Rules, key: Key, buf: bytes, pos: nat, end: nat, k: KeyLayout)
    requires (k.RsaNoBits? || k.RsaNoKey?) && FitsKey(rules, key.oid, k) && end <= |buf|
    requires var s := KeyBits(rules, key.oid, k); Lies(buf, pos, s) && end == pos + |s|
    ensures RsaKey(key, buf, pos, end) == Some(key)
  {
    hide Encode, ReadTlv, Lies, Encodable, IntBits, IsRsa, BitString;
    if k.RsaNoBits? {
      ElementReads(buf, pos, end, k.element, k.extra);
    } else {
      var _, _ := BitsRead(buf, pos, end, k.bitsForm, k.unused, k.element, k.spare, k.extra);
    }
  }

  lemma {:induction false} CurveReads(rules: Rules, key: Key, buf: bytes, pos: nat, end: nat, k: KeyLayout)
    requires k.EcKey? && FitsKey(rules, key.oid, k) && end <= |buf|
    requires Lies(buf, pos, Encode(k.parameter) + k.extra) && pos + |Encode(k.parameter)| <= end
    ensures |Encode(k.parameter)| > 0
    ensures CurveKey(rules, key, buf, pos, end) ==
            if k.parameter.tag != OID then Done(key)
            else match OidText(rules, k.parameter.value)
              case Done(id) => Done(Key(key.oid, "EC " + rules.curve(id).0, rules.curve(id).1))
              case DerError => DerError
              case ValueError => ValueError
  {
    hide Encode, ReadTlv, Lies, Encodable, OidText;
    ElementReads(buf, pos, end, k.parameter, k.extra);
    LiesIs(buf, ReadTlv(buf, pos, end).value.start, k.parameter.value);
  }

  /** The key reads as its OID, the catalogue's name and size, the curve's, or the size of the modulus. */
  lemma {:induction false} KeyReads(rules: Rules, buf: bytes, start: nat, stop: nat, a: Algorithm, k: KeyLayout)
    requires EncodableAlgorithm(a) && stop <= |buf|
    requires var oid := DecodeOid(a.oid).value;
             && FitsKey(rules, oid, k) && a.parameters == KeyParameters(rules, oid, k)
             && var s := Encode(AlgorithmElement(a)) + KeyBits(rules, oid, k);
             && Lies(buf, start, s) && stop == start + |s|
    ensures SpkiKey(rules, buf, start, stop) == KeyOf(rules, a.oid, k)
  {
    hide Encode, ReadTlv, Lies, Encodable, DecodeOid, Writable, CurveKey, RsaKey, KeyBits, IntBits, IsRsa,
         NamesRsa;
    RsaNames(rules.algorithm(DecodeOid(a.oid).value).0);
    var oid := DecodeOid(a.oid).value;
    var key := Key(oid, rules.algorithm(oid).0, rules.algorithm(oid).1);
    ElementReads(buf, start, stop, AlgorithmElement(a), KeyBits(rules, oid, k));
    var s := ReadTlv(buf, start, stop).value;
    ElementReads(buf, s.start, s.stop, OidElement(a), a.parameters);
    var o := ReadTlv(buf, s.start, s.stop).value;
    LiesIs(buf, o.start, a.oid);
    if k.RsaModulus? {
      ModulusReads(rules, key, buf, s.stop, stop, k);
    } else if k.EcKey? {
      CurveReads(rules, key, buf, o.stop, s.stop, k);
    } else if !k.AnyKey? {
      NoModulusReads(rules, key, buf, s.stop, stop, k);
    }
  }

  // ---- The whole certificate ----

  datatype Fields = Fields(
    form: nat, tbsForm: nat, version: Option<Element>, serial: Element, signature: Algorithm,
    issuerForm: nat, issuer: NameLayout, validityForm: nat, notBefore: Element, notAfter: Element, times: bytes,
    subjectForm: nat, subject: NameLayout, spkiForm: nat, key: Algorithm, keyLayout: KeyLayout,
    tail: seq<TailLayout>, after: bytes, trailing: bytes)

  function KeyOid(f: Fields): Oid
    requires DecodeOid(f.key.oid).Some?
  {
    DecodeOid(f.key.oid).value
  }

  ghost predicate FitParts(rules: Rules, f: Fields) {
    && FitsName(f.issuer) && FitsName(f.subject) && FitTails(f.tail)
    && Encodable(f.notBefore) && Encodable(f.notAfter) && f.serial.tag == 0x02
    && DecodeOid(f.key.oid).Some? && FitsKey(rules, KeyOid(f), f.keyLayout)
    && f.key.parameters == KeyParameters(rules, KeyOid(f), f.keyLayout)
  }

  function ToLayout(rules: Rules, f: Fields): Layout
    requires FitParts(rules, f)
  {
    Layout(f.form, f.tbsForm, f.version, f.serial, f.signature,
           Element(0x30, f.issuerForm, NameBytes(f.issuer)),
           Element(0x30, f.validityForm, Encode(f.notBefore) + (Encode(f.notAfter) + f.times)),
           Element(0x30, f.subjectForm, NameBytes(f.subject)),
           f.spkiForm, f.key, KeyBits(rules, KeyOid(f), f.keyLayout), TailBytes(f.tail), f.after, f.trailing)
  }

  ghost predicate FitsCertificate(rules: Rules, f: Fields) {
    FitParts(rules, f) && EncodableCert(ToLayout(rules, f))
  }

  function CertificateBytes(rules: Rules, f: Fields): bytes
    requires FitsCertificate(rules, f)
  {
    Encode(Cert(ToLayout(rules, f))) + f.trailing
  }

  // The element read at pos is e.
  ghost predicate Reads(buf: bytes, pos: nat, end: nat, e: Element, t: Tlv) {
    && end <= |buf| && ReadTlv(buf, pos, end) == Some(t)
    && t.tag == e.tag && t.start + |e.value| == t.stop && Lies(buf, t.start, e.value)
  }

  lemma {:induction false} NextReads(buf: bytes, pos: nat, end: nat, e: Element, rest: bytes) returns (t: Tlv)
    requires Encodable(e) && end <= |buf| && Lies(buf, pos, Encode(e) + rest) && end == pos + |Encode(e) + rest|
    ensures Reads(buf, pos, end, e, t) && Lies(buf, t.stop, rest) && end == t.stop + |rest|
  {
    hide Encode, ReadTlv, Lies, Encodable;
    ElementReads(buf, pos, end, e, rest);
    t := ReadTlv(buf, pos, end).value;
  }

  lemma {:induction false} FirstPartReads(rules: Rules, d: bytes, pos: nat, end: nat, l: Layout)
    returns (serial: Tlv, next: nat, i: Tlv)
    requires EncodableFields(l) && end <= |d| && Lies(d, pos, FromSerial(l)) && end == pos + |FromSerial(l)|
    ensures Reads(d, pos, end, l.serial, serial)
    ensures next <= end && AlgorithmOid(rules, d, serial.stop, end) == With(OidOf(rules, l.signature), next)
    ensures Reads(d, next, end, l.issuer, i)
    ensures var rest := Encode(l.validity) + FromSubject(l); Lies(d, i.stop, rest) && end == i.stop + |rest|
  {
    hide Encode, ReadTlv, DecodeOid, Lies, Encodable, AlgorithmOid, OidOf, FromSubject, Reads;
    var s2 := Encode(l.issuer) + (Encode(l.validity) + FromSubject(l));
    var s1 := Encode(AlgorithmElement(l.signature)) + s2;
    serial := NextReads(d, pos, end, l.serial, s1);
    AlgorithmReads(rules, d, serial.stop, end, l.signature, s2);
    next := serial.stop + |Encode(AlgorithmElement(l.signature))|;
    i := NextReads(d, next, end, l.issuer, Encode(l.validity) + FromSubject(l));
  }

  lemma {:induction false} SecondPartReads(d: bytes, pos: nat, end: nat, l: Layout) returns (v: Tlv, j: Tlv, k: Tlv)
    requires EncodableFields(l) && end <= |d|
    requires var s := Encode(l.validity) + FromSubject(l); Lies(d, pos, s) && end == pos + |s|
    ensures Reads(d, pos, end, l.validity, v) && Reads(d, v.stop, end, l.subject, j)
    ensures Reads(d, j.stop, end, Spki(l), k)
    ensures Lies(d, k.stop, l.rest) && end == k.stop + |l.rest|
  {
    hide Encode, ReadTlv, DecodeOid, Lies, Encodable, Reads;
    v := NextReads(d, pos, end, l.validity, FromSubject(l));
    j := NextReads(d, v.stop, end, l.subject, Encode(Spki(l)) + l.rest);
    k := NextReads(d, j.stop, end, Spki(l), l.rest);
  }

  // The parse of both times.
  function TimesOf(rules: Rules, f: Fields): Outcome<(string, string)> {
    var notBefore :- DerTime(rules, f.notBefore.tag, f.notBefore.value);
    var notAfter :- DerTime(rules, f.notAfter.tag, f.notAfter.value);
    Done((notBefore, notAfter))
  }

  lemma {:induction false} ValidityReads(rules: Rules, d: bytes, start: nat, stop: nat, f: Fields)
    requires Encodable(f.notBefore) && Encodable(f.notAfter) && stop <= |d|
    requires var s := Encode(f.notBefore) + (Encode(f.notAfter) + f.times); Lies(d, start, s) && stop == start + |s|
    ensures Validity(rules, d, start, stop) == TimesOf(rules, f)
  {
    hide Encode, ReadTlv, Lies, Encodable, DerTime;
    var t1 := NextReads(d, start, stop, f.notBefore, Encode(f.notAfter) + f.times);
    var t2 := NextReads(d, t1.stop, stop, f.notAfter, f.times);
    LiesIs(d, t1.start, f.notBefore.value);
    LiesIs(d, t2.start, f.notAfter.value);
  }

  // The category the OIDs call for.
  ghost function CategoryOf(signature: Oid, key: Oid): (c: Category)
    ensures IsCategory(signature, key, c)
  {
    if NamesComposite(signature) || NamesComposite(key) then HybridComposite
    else if NamesPqc(signature) || NamesPqc(key) then PurePqc
    else Classical
  }

  // The certificate of these fields: self-signed when both names are rendered alike, for a CA when the constraints
  // say so, and where there are none when it is self-signed.
  ghost function Assemble(rules: Rules, serial: bytes, signature0: Outcome<Oid>, issuer0: Outcome<Name>,
                    times: Outcome<(string, string)>, subject0: Outcome<Name>, key0: Outcome<Key>,
                    exts0: Outcome<Extensions>): Outcome<Certificate> {
    var signature :- signature0;
    var issuer :- issuer0;
    var (notBefore, notAfter) :- times;
    var subject :- subject0;
    var key :- key0;
    var exts :- exts0;
    var isCa :- Need(IsCa(exts));
    var selfSigned := rules.render(subject) == rules.render(issuer);
    Done(Certificate(serial, issuer, subject, notBefore, notAfter, signature, key,
                     CategoryOf(signature, key.oid), isCa, selfSigned,
                     isCa || (selfSigned && ID_BASIC_CONSTRAINTS !in exts)))
  }

  // What the certificate says.
  ghost function Contents(rules: Rules, f: Fields): Outcome<Certificate>
    requires FitsCertificate(rules, f)
  {
    Assemble(rules, f.serial.value, OidOf(rules, f.signature), NameOf(rules, f.issuer), TimesOf(rules, f),
             NameOf(rules, f.subject), KeyOf(rules, f.key.oid, f.keyLayout), TailOf(rules, f.tail, map[]))
  }

  lemma {:induction false} CategoriesAgree(signature: Oid, key: Oid)
    ensures Categorise(Oids(signature, key)) == CategoryOf(signature, key)
  {
    hide Categorise, CategoryOf, NamesComposite, NamesPqc;
    CategoryMeans(Oids(signature, key));
  }

  // The parse, from what its readers find.
  lemma {:induction false} PartsParse(
    rules: Rules, d: bytes, tbs: Tlv, pos: nat, serial: Tlv, next: nat, i: Tlv, v: Tlv, j: Tlv, k: Tlv,
    signature: Outcome<Oid>)
    requires OpenTbs(d) == Some(tbs) && tbs.start <= tbs.stop <= |d|
    requires SkipVersion(d, tbs.start, tbs.stop) == Some(pos)
    requires ReadTlv(d, pos, tbs.stop) == Some(serial) && serial.tag == INTEGER
    requires AlgorithmOid(rules, d, serial.stop, tbs.stop) == With(signature, next)
    requires Sequence(d, next, tbs.stop) == Some(i) && Sequence(d, i.stop, tbs.stop) == Some(v)
    requires Sequence(d, v.stop, tbs.stop) == Some(j) && Sequence(d, j.stop, tbs.stop) == Some(k)
    ensures ParseCertificate(rules, d) ==
            Assemble(rules, d[serial.start..serial.stop], signature, ReadName(rules, d, i.start, i.stop),
                     Validity(rules, d, v.start, v.stop), ReadName(rules, d, j.start, j.stop),
                     SpkiKey(rules, d, k.start, k.stop), ReadTail(rules, d, k.stop, tbs.stop, map[]))
  {
    hide ReadTlv, OpenTbs, SkipVersion, AlgorithmOid, Sequence, Validity, SpkiKey, ReadName, ReadTail, IsCa, Categorise,
         CategoryOf;
    var key := SpkiKey(rules, d, k.start, k.stop);
    if signature.Done? && key.Done? {
      CategoriesAgree(signature.value, key.value.oid);
    }
  }

  /** Reading a certificate gives exactly what it says: its serial, names, times, algorithms, key name and size,
      and extensions, the last ones winning, whatever bytes fill the places the parse passes over.  It fails exactly
      where a time, basicConstraints or the dotted form of an OID does, in the order they are read. */
  lemma {:induction false} ParseIsExact(rules: Rules, f: Fields)
    requires FitsCertificate(rules, f)
    ensures ParseCertificate(rules, CertificateBytes(rules, f)) == Contents(rules, f)
  {
    hide ParseCertificate, Assemble, Encode, ReadTlv, DecodeOid, Lies, Encodable, AlgorithmOid, FromSubject, FromSerial,
         OpenTbs, SkipVersion, Validity, TimesOf, SpkiKey, ReadName, ReadTail, NameBytes, TailBytes, FitsName, FitTails;
    hide OidOf, NameOf, KeyOf, TailOf, With;
    var l := ToLayout(rules, f);
    var d := CertificateBytes(rules, f);
    TbsReads(l);
    var tbs := OpenTbs(d).value;
    VersionReads(d, tbs.start, tbs.stop, l);
    var pos := SkipVersion(d, tbs.start, tbs.stop).value;
    var serial, next, i := FirstPartReads(rules, d, pos, tbs.stop, l);
    var v, j, k := SecondPartReads(d, i.stop, tbs.stop, l);
    NameReads(rules, d, i.start, i.stop, f.issuer);
    NameReads(rules, d, j.start, j.stop, f.subject);
    ValidityReads(rules, d, v.start, v.stop, f);
    KeyReads(rules, d, k.start, k.stop, f.key, f.keyLayout);
    TailReads(rules, d, k.stop, tbs.stop, f.tail, map[]);
    LiesIs(d, serial.start, f.serial.value);
    PartsParse(rules, d, tbs, pos, serial, next, i, v, j, k, OidOf(rules, f.signature));
  }

  // ---- When it raises ----

  // Every type of the name can be written out.
  ghost predicate NameWritable(rules: Rules, n: NameLayout) {
    forall i, j | 0 <= i < |n| && 0 <= j < |n[i].attributes| :: OidText(rules, n[i].attributes[j].oid).Done?
  }

  ghost predicate IdsWritable(rules: Rules, xs: seq<ExtensionLayout>) {
    forall i | 0 <= i < |xs| :: OidText(rules, xs[i].id.value).Done?
  }

  ghost predicate TailWritable(rules: Rules, ts: seq<TailLayout>) {
    forall i | 0 <= i < |ts| && ts[i].ExtensionsField? :: IdsWritable(rules, ts[i].extensions)
  }

  ghost predicate KeyWritable(rules: Rules, value: bytes, k: KeyLayout) {
    OidText(rules, value).Done? && (k.EcKey? && k.parameter.tag == 0x06 ==> OidText(rules, k.parameter.value).Done?)
  }

  lemma {:induction false} AttributesRaise(rules: Rules, la: seq<AttributeLayout>)
    requires FitAttributes(la)
    ensures AttributesOf(rules, la) != DerError
    ensures AttributesOf(rules, la).Done? <==> forall j | 0 <= j < |la| :: OidText(rules, la[j].oid).Done?
    decreases |la|
  {
    hide Writable, Encode, Encodable, DecodeOid;
    if la != [] {
      assert FitsAttribute(la[0]);
      AttributesRaise(rules, la[1..]);
      assert forall j | 0 < j < |la| :: la[j] == la[1..][j - 1];
    }
  }

  lemma {:induction false} NameRaises(rules: Rules, n: NameLayout)
    requires FitsName(n)
    ensures NameOf(rules, n) != DerError && (NameOf(rules, n).Done? <==> NameWritable(rules, n))
    decreases |n|
  {
    hide OidText, AttributesOf, FitAttributes, Encode, Encodable, AttributeBytes;
    if n != [] {
      assert FitsRdn(n[0]);
      AttributesRaise(rules, n[0].attributes);
      NameRaises(rules, n[1..]);
      if NameWritable(rules, n) {
        forall i, j | 0 <= i < |n[1..]| && 0 <= j < |n[1..][i].attributes|
          ensures OidText(rules, n[1..][i].attributes[j].oid).Done?
        {
          assert n[1..][i] == n[i + 1];
        }
      }
      if NameOf(rules, n).Done? {
        forall i, j | 0 <= i < |n| && 0 <= j < |n[i].attributes| ensures OidText(rules, n[i].attributes[j].oid).Done? {
          assert i > 0 ==> n[i] == n[1..][i - 1];
        }
      }
    }
  }

  lemma {:induction false} ExtensionsRaise(rules: Rules, xs: seq<ExtensionLayout>, out: Extensions)
    requires FitExtensions(xs)
    ensures ExtensionsOf(rules, xs, out) != DerError && (ExtensionsOf(rules, xs, out).Done? <==> IdsWritable(rules, xs))
    decreases |xs|
  {
    hide Writable, Encode, Encodable, DecodeOid;
    if xs != [] {
      assert FitsExtension(xs[0]);
      var out1 := AddExtension(rules, out, xs[0]);
      if out1.Done? {
        ExtensionsRaise(rules, xs[1..], out1.value);
      }
      assert forall j | 0 < j < |xs| :: xs[j] == xs[1..][j - 1];
    }
  }

  lemma {:induction false} TailRaises(rules: Rules, ts: seq<TailLayout>, exts: Extensions)
    requires FitTails(ts)
    ensures TailOf(rules, ts, exts) != DerError && (TailOf(rules, ts, exts).Done? <==> TailWritable(rules, ts))
    decreases |ts|
  {
    hide ExtensionsOf, IdsWritable, FitExtensions, Encode, Encodable, ExtensionBytes;
    if ts != [] {
      assert FitsTail(ts[0]);
      if ts[0].ExtensionsField? {
        ExtensionsRaise(rules, ts[0].extensions, map[]);
      }
      var exts1 := if ts[0].Other? then Done(exts) else ExtensionsOf(rules, ts[0].extensions, map[]);
      if exts1.Done? {
        TailRaises(rules, ts[1..], exts1.value);
      }
      assert forall j | 0 < j < |ts| :: ts[j] == ts[1..][j - 1];
    }
  }

  lemma {:induction false} KeyRaises(rules: Rules, f: Fields)
    requires FitParts(rules, f)
    ensures var key := KeyOf(rules, f.key.oid, f.keyLayout);
            key != DerError && (key.Done? <==> KeyWritable(rules, f.key.oid, f.keyLayout))
  {
    hide Writable, Encode, Encodable, DecodeOid, FitsName, FitTails, KeyParameters, IsRsa;
  }

  lemma {:induction false} AssembleRaises(
    rules: Rules, serial: bytes, signature: Outcome<Oid>, issuer: Outcome<Name>, times: Outcome<(string, string)>,
    subject: Outcome<Name>, key: Outcome<Key>, exts: Outcome<Extensions>)
    requires signature != DerError && issuer != DerError && subject != DerError && key != DerError && exts != DerError
    ensures Assemble(rules, serial, signature, issuer, times, subject, key, exts) == ValueError <==>
            || !signature.Done? || !issuer.Done? || times == ValueError
            || (times.Done? && (!subject.Done? || !key.Done? || !exts.Done?))
  {
    hide IsCa, CategoryOf;
  }

  // A UTCTime in Z form whose first two characters are no number to `int`.
  predicate HasNoYear(tag: byte, value: bytes) {
    var text := Ascii(value);
    tag == UTC_TIME && text != "" && text[|text| - 1] == 'Z' && ShortInt(First(text, 2)) == None
  }

  // The first of two times that is not accepted has no year.
  predicate YearRaises(rules: Rules, tag1: byte, value1: bytes, tag2: byte, value2: bytes) {
    HasNoYear(tag1, value1) || (DerTime(rules, tag1, value1).Done? && HasNoYear(tag2, value2))
  }

  lemma {:induction false} TimesRaise(rules: Rules, f: Fields)
    ensures TimesOf(rules, f) == ValueError <==>
            YearRaises(rules, f.notBefore.tag, f.notBefore.value, f.notAfter.tag, f.notAfter.value)
  {
    hide Ascii, ShortInt;
  }

  /** A laid-out certificate raises exactly where a UTCTime has no year or an OID cannot be written out, unless a
      time is refused before it is read. */
  lemma {:induction false} LayoutRaisesIff(rules: Rules, f: Fields)
    requires FitsCertificate(rules, f)
    ensures ParseCertificate(rules, CertificateBytes(rules, f)) == ValueError <==>
            || !OidText(rules, f.signature.oid).Done? || !NameWritable(rules, f.issuer)
            || YearRaises(rules, f.notBefore.tag, f.notBefore.value, f.notAfter.tag, f.notAfter.value)
            || (TimesOf(rules, f).Done?
                && !(NameWritable(rules, f.subject) && KeyWritable(rules, f.key.oid, f.keyLayout)
                     && TailWritable(rules, f.tail)))
  {
    ParseIsExact(rules, f);
    TimesRaise(rules, f);
    SignatureRaises(rules, f);
    hide ParseCertificate, CertificateBytes, TimesOf, YearRaises, Assemble, ToLayout, EncodableCert, OidOf, OidText;
    hide NameOf, KeyOf, TailOf, NameWritable, KeyWritable, TailWritable;
    NameRaises(rules, f.issuer);
    NameRaises(rules, f.subject);
    KeyRaises(rules, f);
    TailRaises(rules, f.tail, map[]);
    AssembleRaises(rules, f.serial.value, OidOf(rules, f.signature), NameOf(rules, f.issuer), TimesOf(rules, f),
                   NameOf(rules, f.subject), KeyOf(rules, f.key.oid, f.keyLayout), TailOf(rules, f.tail, map[]));
  }

  lemma {:induction false} SignatureRaises(rules: Rules, f: Fields)
    requires FitsCertificate(rules, f)
    ensures EncodableAlgorithm(f.signature) && OidOf(rules, f.signature) == OidText(rules, f.signature.oid)
    ensures OidOf(rules, f.signature) != DerError
  {
    hide Encode, Encodable, Writable, FitParts, AlgorithmElement, Tbs, Cert;
  }
}
