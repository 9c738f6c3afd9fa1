/** When the full parse fails with an error that is no DERError, on any bytes. */
module CertificateErrors {
  import opened Bytes
  import opened Options
  import opened Der
  import opened Certificates
  import opened CertificateFields
  import CertificateWalk

  // The validity, where all that is read before it is in order.
  function ValidityAt(rules: Rules, der: bytes): Outcome<Tlv> {
    var tbs :- Need(OpenTbs(der));
    var end := tbs.stop;
    var pos :- Need(SkipVersion(der, tbs.start, end));
    var serial :- Need(ReadTlv(der, pos, end));
    if serial.tag != INTEGER then DerError
    else
      var (_, afterAlgorithm) :- AlgorithmOid(rules, der, serial.stop, end);
      var i :- Need(Sequence(der, afterAlgorithm, end));
      var _ :- ReadName(rules, der, i.start, i.stop);
      Need(Sequence(der, i.stop, end))
  }

  // Its two elements.
  function TimesAt(rules: Rules, der: bytes): Outcome<(Tlv, Tlv)> {
    var v :- ValidityAt(rules, der);
    var t1 :- Need(ReadTlv(der, v.start, v.stop));
    var t2 :- Need(ReadTlv(der, t1.stop, v.stop));
    Done((t1, t2))
  }

  // They are there, and the first that is not accepted is a UTCTime without a year.
  predicate HasBadYear(rules: Rules, der: bytes) {
    match TimesAt(rules, der)
    case Done((t1, t2)) =>
      && t1.start <= t1.stop <= |der| && t2.start <= t2.stop <= |der|
      && YearRaises(rules, t1.tag, der[t1.start..t1.stop], t2.tag, der[t2.start..t2.stop])
    case _ => false
  }

  // Whatever of the bytes is taken for an OID can be written out.
  ghost predicate ArcsWritable(rules: Rules, der: bytes) {
    forall i, j | 0 <= i <= j <= |der| :: OidText(rules, der[i..j]) != ValueError
  }

  lemma {:induction false} NoLimitIsWritable(rules: Rules, der: bytes)
    requires rules.maxDigits == None
    ensures ArcsWritable(rules, der)
  {
    hide DecodeOid;
  }

  lemma {:induction false} SliceIsWritable(rules: Rules, der: bytes, i: nat, j: nat)
    requires ArcsWritable(rules, der) && i <= j <= |der|
    ensures OidText(rules, der[i..j]) != ValueError
  {
    hide OidText;
  }

  lemma {:induction false} AlgorithmNeverRaises(rules: Rules, der: bytes, pos: nat, end: nat)
    requires ArcsWritable(rules, der) && end <= |der|
    ensures AlgorithmOid(rules, der, pos, end) != ValueError
  {
    hide ArcsWritable, ReadTlv, OidText;
    var s := ReadTlv(der, pos, end);
    if s.Some? {
      var o := ReadTlv(der, s.value.start, s.value.stop);
      if o.Some? {
        SliceIsWritable(rules, der, o.value.start, o.value.stop);
      }
    }
  }

  lemma {:induction false} AttributeNeverRaises(rules: Rules, der: bytes, pos: nat, end: nat)
    requires ArcsWritable(rules, der) && end <= |der|
    ensures ReadAttribute(rules, der, pos, end) != ValueError
  {
    hide ArcsWritable, ReadTlv, OidText;
    var a := ReadTlv(der, pos, end);
    if a.Some? {
      var o := ReadTlv(der, a.value.start, a.value.stop);
      if o.Some? {
        SliceIsWritable(rules, der, o.value.start, o.value.stop);
      }
    }
  }

  lemma {:induction false} AttributesNeverRaise(rules: Rules, der: bytes, pos: nat, end: nat)
    requires ArcsWritable(rules, der) && pos <= end <= |der|
    ensures ReadAttributes(rules, der, pos, end) != ValueError
    decreases end - pos
  {
    hide ArcsWritable, ReadAttribute;
    AttributeNeverRaises(rules, der, pos, end);
    if pos < end && ReadAttribute(rules, der, pos, end).Done? {
      AttributesNeverRaise(rules, der, ReadAttribute(rules, der, pos, end).value.1, end);
    }
  }

  lemma {:induction false} NameNeverRaises(rules: Rules, der: bytes, pos: nat, end: nat)
    requires ArcsWritable(rules, der) && pos <= end <= |der|
    ensures ReadName(rules, der, pos, end) != ValueError
    decreases end - pos
  {
    hide ArcsWritable, ReadAttributes, ReadTlv;
    if pos < end && ReadTlv(der, pos, end).Some? {
      var s := ReadTlv(der, pos, end).value;
      AttributesNeverRaise(rules, der, s.start, s.stop);
      NameNeverRaises(rules, der, s.stop, end);
    }
  }

  lemma {:induction false} CurveNeverRaises(rules: Rules, key: Key, der: bytes, pos: nat, end: nat)
    requires ArcsWritable(rules, der) && end <= |der|
    ensures CurveKey(rules, key, der, pos, end) != ValueError
  {
    hide ArcsWritable, ReadTlv, OidText;
    var p := ReadTlv(der, pos, end);
    if p.Some? {
      SliceIsWritable(rules, der, p.value.start, p.value.stop);
    }
  }

  lemma {:induction false} KeyNeverRaises(rules: Rules, der: bytes, start: nat, stop: nat)
    requires ArcsWritable(rules, der) && stop <= |der|
    ensures SpkiKey(rules, der, start, stop) != ValueError
  {
    hide ArcsWritable, ReadTlv, OidText, CurveKey, RsaKey, IsRsa;
    var e := SpkiOidElement(der, start, stop);
    if e.Some? {
      var (a, o) := e.value;
      SliceIsWritable(rules, der, o.start, o.stop);
      var text := OidText(rules, der[o.start..o.stop]);
      if text.Done? {
        var key := Key(text.value, rules.algorithm(text.value).0, rules.algorithm(text.value).1);
        CurveNeverRaises(rules, key, der, o.stop, a.stop);
      }
    }
  }

  lemma {:induction false} ExtensionNeverRaises(rules: Rules, der: bytes, pos: nat, end: nat, out: Extensions)
    requires ArcsWritable(rules, der) && end <= |der|
    ensures ReadExtension(rules, der, pos, end, out) != ValueError
  {
    hide ArcsWritable, ReadTlv, OidText;
    var e := ReadTlv(der, pos, end);
    if e.Some? {
      var o := ReadTlv(der, e.value.start, e.value.stop);
      if o.Some? {
        SliceIsWritable(rules, der, o.value.start, o.value.stop);
      }
    }
  }

  lemma {:induction false} ExtensionsNeverRaise(rules: Rules, der: bytes, pos: nat, end: nat, out: Extensions)
    requires ArcsWritable(rules, der) && pos <= end <= |der|
    ensures ReadExtensionList(rules, der, pos, end, out) != ValueError
    decreases end - pos
  {
    hide ArcsWritable, ReadExtension;
    ExtensionNeverRaises(rules, der, pos, end, out);
    if pos < end && ReadExtension(rules, der, pos, end, out).Done? {
      var (out1, next) := ReadExtension(rules, der, pos, end, out).value;
      ExtensionsNeverRaise(rules, der, next, end, out1);
    }
  }

  lemma {:induction false} FieldNeverRaises(rules: Rules, der: bytes, start: nat, stop: nat)
    requires ArcsWritable(rules, der) && stop <= |der|
    ensures ReadExtensions(rules, der, start, stop) != ValueError
  {
    hide ArcsWritable, ReadExtensionList, ReadTlv;
    var s := ReadTlv(der, start, stop);
    if s.Some? {
      ExtensionsNeverRaise(rules, der, s.value.start, s.value.stop, map[]);
    }
  }

  lemma {:induction false} TailNeverRaises(rules: Rules, der: bytes, pos: nat, end: nat, exts: Extensions)
    requires ArcsWritable(rules, der) && pos <= end <= |der|
    ensures ReadTail(rules, der, pos, end, exts) != ValueError
    decreases end - pos
  {
    hide ArcsWritable, ReadExtensions, ReadTlv;
    if pos < end && ReadTlv(der, pos, end).Some? {
      var e := ReadTlv(der, pos, end).value;
      FieldNeverRaises(rules, der, e.start, e.stop);
      var exts1 := if e.tag == EXTENSIONS_TAG then ReadExtensions(rules, der, e.start, e.stop) else Done(exts);
      if exts1.Done? {
        TailNeverRaises(rules, der, e.stop, end, exts1.value);
      }
    }
  }

  lemma {:induction false} TimeRaises(rules: Rules, tag: byte, value: bytes)
    ensures DerTime(rules, tag, value) == ValueError <==> HasNoYear(tag, value)
  {
    hide Ascii, ShortInt;
  }

  // Of both times together.
  lemma {:induction false} ValidityRaises(rules: Rules, der: bytes, start: nat, stop: nat)
    requires stop <= |der|
    ensures Validity(rules, der, start, stop) == ValueError <==>
            match ReadTlv(der, start, stop)
            case None => false
            case Some(t1) =>
              match ReadTlv(der, t1.stop, stop)
              case None => false
              case Some(t2) =>
                YearRaises(rules, t1.tag, der[t1.start..t1.stop], t2.tag, der[t2.start..t2.stop])
  {
    hide ReadTlv, DerTime, HasNoYear;
    var t1 := ReadTlv(der, start, stop);
    if t1.Some? {
      TimeRaises(rules, t1.value.tag, der[t1.value.start..t1.value.stop]);
      var t2 := ReadTlv(der, t1.value.stop, stop);
      if t2.Some? {
        TimeRaises(rules, t2.value.tag, der[t2.value.start..t2.value.stop]);
      }
    }
  }

  // What comes before the validity does not raise.
  lemma {:induction false} BeforeNeverRaises(rules: Rules, der: bytes)
    requires ArcsWritable(rules, der)
    ensures ValidityAt(rules, der) != ValueError
    ensures ValidityAt(rules, der).Done? ==> ValidityAt(rules, der).value.stop <= |der|
  {
    hide ArcsWritable, ReadTlv, OpenTbs, SkipVersion, AlgorithmOid, Sequence, ReadName;
    var tbs := OpenTbs(der);
    if tbs.None? || SkipVersion(der, tbs.value.start, tbs.value.stop).None? {
      return;
    }
    var end := tbs.value.stop;
    var serial := ReadTlv(der, SkipVersion(der, tbs.value.start, end).value, end);
    if serial.None? {
      return;
    }
    AlgorithmNeverRaises(rules, der, serial.value.stop, end);
    var algorithm := AlgorithmOid(rules, der, serial.value.stop, end);
    if algorithm.Done? {
      var i := Sequence(der, algorithm.value.1, end);
      if i.Some? {
        NameNeverRaises(rules, der, i.value.start, i.value.stop);
      }
    }
  }

  // The parse, once the validity has been found.
  function FromValidity(rules: Rules, der: bytes, v: Tlv, end: nat): Outcome<()>
    requires v.start <= v.stop <= end <= |der|
  {
    var _ :- Validity(rules, der, v.start, v.stop);
    var j :- Need(Sequence(der, v.stop, end));
    var _ :- ReadName(rules, der, j.start, j.stop);
    var k :- Need(Sequence(der, j.stop, end));
    var _ :- SpkiKey(rules, der, k.start, k.stop);
    var _ :- ReadTail(rules, der, k.stop, end, map[]);
    Done(())
  }

  lemma {:induction false} FromValidityRaises(rules: Rules, der: bytes, v: Tlv, end: nat)
    requires ArcsWritable(rules, der) && v.start <= v.stop <= end <= |der|
    ensures FromValidity(rules, der, v, end) == ValueError <==> Validity(rules, der, v.start, v.stop) == ValueError
  {
    hide ArcsWritable, ReadTlv, Sequence, Validity, SpkiKey, ReadName, ReadTail;
    var j := Sequence(der, v.stop, end);
    if j.Some? {
      NameNeverRaises(rules, der, j.value.start, j.value.stop);
      var k := Sequence(der, j.value.stop, end);
      if k.Some? {
        KeyNeverRaises(rules, der, k.value.start, k.value.stop);
        TailNeverRaises(rules, der, k.value.stop, end, map[]);
      }
    }
  }

  lemma {:induction false} ParseFromValidity(rules: Rules, der: bytes)
    ensures match ValidityAt(rules, der)
            case ValueError => ParseCertificate(rules, der) == ValueError
            case DerError => ParseCertificate(rules, der) == DerError
            case Done(v) =>
              && OpenTbs(der).Some? && v.start <= v.stop <= OpenTbs(der).value.stop <= |der|
              && (ParseCertificate(rules, der) == ValueError
                  <==> FromValidity(rules, der, v, OpenTbs(der).value.stop) == ValueError)
  {
    hide ReadTlv, OpenTbs, SkipVersion, AlgorithmOid, Sequence, Validity, SpkiKey, ReadName, ReadTail, IsCa, Categorise;
  }

  lemma {:induction false} ParseRaises(rules: Rules, der: bytes)
    requires ArcsWritable(rules, der)
    ensures ParseCertificate(rules, der) == ValueError <==>
            match ValidityAt(rules, der)
            case Done(v) => v.stop <= |der| && Validity(rules, der, v.start, v.stop) == ValueError
            case _ => false
  {
    hide ArcsWritable, ParseCertificate, ValidityAt, Validity, FromValidity, OpenTbs;
    BeforeNeverRaises(rules, der);
    ParseFromValidity(rules, der);
    if ValidityAt(rules, der).Done? {
      FromValidityRaises(rules, der, ValidityAt(rules, der).value, OpenTbs(der).value.stop);
    }
  }

  /** On any bytes in which no OID has too long an arc: the parse fails with the error that is no DERError if and
      only if the elements up to the validity read and the first time that is not accepted has no year. */
  lemma {:induction false} RaisesIffNoYear(rules: Rules, der: bytes)
    requires ArcsWritable(rules, der)
    ensures ParseCertificate(rules, der) == ValueError <==> HasBadYear(rules, der)
  {
    hide ParseCertificate, ArcsWritable, ValidityAt, Validity, ReadTlv, YearRaises;
    ParseRaises(rules, der);
    BeforeNeverRaises(rules, der);
    if ValidityAt(rules, der).Done? {
      var v := ValidityAt(rules, der).value;
      ValidityRaises(rules, der, v.start, v.stop);
    }
  }

  // "\x1c50101000000Z": what `str` strips and `int` does not.
  const SEPARATOR_YEAR: bytes := [0x1C, 0x35, 0x30, 0x31, 0x30, 0x31, 0x30, 0x30, 0x30, 0x30, 0x30, 0x30, 0x5A]

  lemma {:induction false} NoYearIs(value: bytes)
    requires |value| >= 2 && value[|value| - 1] as char == 'Z' && forall i | 0 <= i < |value| :: value[i] < 0x80
    requires ShortInt([value[0] as char, value[1] as char]) == None
    ensures HasNoYear(UTC_TIME, value)
  {
    CertificateWalk.AsciiIs(value);
    hide Ascii, ShortInt;
    assert First(Ascii(value), 2) == [value[0] as char, value[1] as char];
  }

  /** A file separator before the digit is no white space to `int`; a space is. */
  lemma {:induction false} SeparatorIsNoBlank()
    ensures HasNoYear(UTC_TIME, SEPARATOR_YEAR) && ShortInt(" 5") == Some(5)
  {
    assert " 5"[1..] == "5";
    assert ShortInt(['\U{1C}', '5']) == None;
    hide ShortInt, HasNoYear;
    NoYearIs(SEPARATOR_YEAR);
  }

  function PowerOfTen(k: nat): nat {
    if k == 0 then 1 else 10 * PowerOfTen(k - 1)
  }

  lemma {:induction false} DecimalsOfPower(k: nat)
    ensures PowerOfTen(k) > 0 && Decimals(PowerOfTen(k)) == k + 1
  {
    if k > 0 {
      DecimalsOfPower(k - 1);
      assert PowerOfTen(k) / 10 == PowerOfTen(k - 1);
    }
  }

  /** Whatever the limit on digits, some OID is read and cannot be written out. */
  lemma {:induction false} SomeArcIsTooLong(rules: Rules) returns (value: bytes)
    requires rules.maxDigits.Some?
    ensures DecodeOid(value).Some? && OidText(rules, value) == ValueError
  {
    var n := PowerOfTen(rules.maxDigits.value);
    DecimalsOfPower(rules.maxDigits.value);
    hide PowerOfTen, Decimals, DecodeOid, EncodeOid;
    var oid := [1, 2, n];
    assert EncodableOid(oid);
    DecodeInvertsEncode(oid);
    value := EncodeOid(oid);
    assert oid[2] == n;
  }
}
