/** What the times of a certificate and the limit on written digits mean, without the parser's own tests. */
module CertificateTimes {
  import opened Bytes
  import opened Options
  import opened Der
  import opened Certificates
  import opened CertificateErrors

  // ---- Numbers ----

  // Tab, line feed, vertical tab, form feed, carriage return and space.
  const BLANKS: string := "\t\n\U{0B}\U{0C}\r "

  const DIGITS: string := "0123456789"

  ghost predicate AllIn(s: string, chars: string) {
    forall c | c in s :: c in chars
  }

  // The number a row of digits stands for.
  ghost function Number(s: string): int
    requires AllIn(s, DIGITS)
  {
    if s == "" then 0
    else
      assert s[|s| - 1] in s && forall c | c in s[..|s| - 1] :: c in s;
      10 * Number(s[..|s| - 1]) + (s[|s| - 1] as int - '0' as int)
  }

  // Digits behind at most one sign, with blanks on either side.
  ghost predicate Numeral(s: string, n: int, before: string, sign: string, digits: string, after: string) {
    && s == before + sign + digits + after && AllIn(before, BLANKS) && AllIn(after, BLANKS)
    && (sign == "" || sign == "+" || sign == "-") && digits != "" && AllIn(digits, DIGITS)
    && n == if sign == "-" then -Number(digits) else Number(digits)
  }

  ghost predicate IsNumeral(s: string, n: int) {
    exists before, sign, digits, after :: Numeral(s, n, before, sign, digits, after)
  }

  lemma {:induction false} CharsAre(c: char)
    ensures IsBlank(c) <==> c in BLANKS
    ensures IsDigit(c) <==> c in DIGITS
  {
    var b, d := BLANKS, DIGITS;
    assert b[0] == '\t' && b[1] == '\n' && b[2] == 0xB as char && b[3] == 0xC as char && b[4] == '\r' && b[5] == ' ';
    assert forall i | 0 <= i < |b| :: IsBlank(b[i]);
    if 9 <= c as int <= 13 {
      assert c == b[c as int - 9];
    }
    assert d[0] == '0' && d[1] == '1' && d[2] == '2' && d[3] == '3' && d[4] == '4';
    assert d[5] == '5' && d[6] == '6' && d[7] == '7' && d[8] == '8' && d[9] == '9';
    if IsDigit(c) {
      assert c == d[c as int - '0' as int];
    }
  }

  lemma {:induction false} NumberOf(s: string)
    requires AllIn(s, DIGITS)
    ensures |s| == 1 ==> Number(s) == s[0] as int - '0' as int
    ensures |s| == 2 ==> Number(s) == 10 * (s[0] as int - '0' as int) + (s[1] as int - '0' as int)
  {
    if |s| == 1 {
      assert s[..0] == "";
    } else if |s| == 2 {
      assert s[0] in s && s[1] in s;
      assert s[..1] == [s[0]] && s[..1][..0] == "";
      assert Number(s[..1]) == s[0] as int - '0' as int;
      assert Number(s) == 10 * Number(s[..1]) + (s[1] as int - '0' as int);
    }
  }

  // What is read is such a numeral.
  lemma {:induction false} ReadIsNumeral(s: string)
    requires |s| <= 2 && ShortInt(s).Some?
    ensures IsNumeral(s, ShortInt(s).value)
    decreases |s|
  {
    hide IsBlank, IsDigit, Number;
    CharsAre(s[0]);
    CharsAre(s[|s| - 1]);
    if IsBlank(s[0]) {
      ReadIsNumeral(s[1..]);
      var n, b, g, d, a :| n == ShortInt(s).value && Numeral(s[1..], n, b, g, d, a);
      assert s == ([s[0]] + b) + g + d + a;
      assert Numeral(s, n, [s[0]] + b, g, d, a);
    } else if IsBlank(s[|s| - 1]) {
      var m := |s| - 1;
      ReadIsNumeral(s[..m]);
      var n, b, g, d, a :| n == ShortInt(s).value && Numeral(s[..m], n, b, g, d, a);
      assert s == b + g + d + (a + [s[m]]);
      assert Numeral(s, n, b, g, d, a + [s[m]]);
    } else {
      PlainIsNumeral(s);
    }
  }

  lemma {:induction false} PlainIsNumeral(s: string)
    requires 0 < |s| <= 2 && !IsBlank(s[0]) && !IsBlank(s[|s| - 1]) && ShortInt(s).Some?
    ensures IsNumeral(s, ShortInt(s).value)
  {
    hide IsBlank, IsDigit, Number;
    CharsAre(s[0]);
    CharsAre(s[|s| - 1]);
    var n := ShortInt(s).value;
    if IsDigit(s[0]) {
      NumberOf(s);
      assert s == "" + "" + s + "";
      assert Numeral(s, n, "", "", s, "");
    } else {
      var sign, digits := s[..1], s[1..];
      NumberOf(digits);
      assert s == "" + sign + digits + "";
      assert sign == [s[0]];
      assert Numeral(s, n, "", sign, digits, "");
    }
  }

  // Such a numeral is read.
  lemma {:induction false} NumeralReads(s: string, n: int, b: string, g: string, d: string, a: string)
    requires |s| <= 2 && Numeral(s, n, b, g, d, a)
    ensures ShortInt(s) == Some(n)
    decreases |b| + |a|
  {
    hide IsBlank, IsDigit, Number;
    CharsAre(s[0]);
    CharsAre(s[|s| - 1]);
    assert d[0] in d && d[|d| - 1] in d;
    if b != "" {
      assert b[0] in b && s[0] == b[0] && forall c | c in b[1..] :: c in b;
      assert s[1..] == b[1..] + g + d + a;
      NumeralReads(s[1..], n, b[1..], g, d, a);
    } else if a != "" {
      var m := |a| - 1;
      assert a[m] in a && s[|s| - 1] == a[m] && forall c | c in a[..m] :: c in a;
      assert s[..|s| - 1] == b + g + d + a[..m];
      NumeralReads(s[..|s| - 1], n, b, g, d, a[..m]);
      DigitIsNoBlank();
    } else {
      NumberOf(d);
      DigitIsNoBlank();
      assert s == g + d;
    }
  }

  lemma {:induction false} DigitIsNoBlank()
    ensures forall c | c in DIGITS :: !IsBlank(c) && IsDigit(c) && c != '+' && c != '-'
    ensures !IsBlank('+') && !IsBlank('-') && !IsDigit('+') && !IsDigit('-')
  {
    forall c | c in DIGITS ensures IsDigit(c) {
      CharsAre(c);
    }
  }

  /** The first two characters of a UTCTime are taken for a number exactly where they are a numeral. */
  lemma {:induction false} YearMeans(s: string, n: int)
    requires |s| <= 2
    ensures ShortInt(s) == Some(n) <==> IsNumeral(s, n)
  {
    hide ShortInt;
    if ShortInt(s) == Some(n) {
      ReadIsNumeral(s);
    }
    if IsNumeral(s, n) {
      var b, g, d, a :| Numeral(s, n, b, g, d, a);
      NumeralReads(s, n, b, g, d, a);
    }
  }

  // ---- Times ----

  // Bytes up to 127 are ASCII; what others become is no ASCII character.
  lemma {:induction false} AsciiMeans(value: bytes, i: nat)
    requires i < |value|
    ensures |Ascii(value)| == |value|
    ensures if value[i] <= 127 then Ascii(value)[i] == value[i] as char else Ascii(value)[i] == '\U{FFFD}'
    decreases |value|
  {
    if |value| > 1 {
      AsciiMeans(value[1..], if i > 0 then i - 1 else 0);
    }
  }

  // The first two characters, or the one there is.
  function Head(s: string): string {
    if |s| < 2 then s else s[..2]
  }

  // `t` is what there is of the first n characters.
  ghost predicate Starts(t: string, s: string, n: nat) {
    t <= s && (|t| == n || (|t| < n && t == s))
  }

  /** A time ends in "Z".  A UTCTime has a year from 1950 on, if its number is 50 or more, or one from 2000 on, and
      fails with the plain error if it has no number; a GeneralizedTime has its own year; nothing else is a time.  The
      calendar decides on the first 14 characters. */
  lemma {:induction false} TimeMeans(rules: Rules, tag: byte, value: bytes, n: int, t: string)
    ensures var text, time := Ascii(value), DerTime(rules, tag, value);
            if text == "" || text[|text| - 1] != 'Z' || (tag != 0x17 && tag != 0x18) then time == DerError
            else if tag == 0x18 then Starts(t, text, 14) ==> time == Need(rules.calendar(t))
            else if IsNumeral(Head(text), n) then
              Starts(t, (if n < 50 then "20" else "19") + text, 14) ==> time == Need(rules.calendar(t))
            else (forall m :: !IsNumeral(Head(text), m)) ==> time == ValueError
  {
    hide Ascii, ShortInt, IsNumeral, Starts;
    var text := Ascii(value);
    var head := Head(text);
    assert head == First(text, 2) by { assert text[..|text|] == text; }
    YearMeans(head, n);
    if ShortInt(head).Some? {
      YearMeans(head, ShortInt(head).value);
    }
    StartsIs(t, text, 14);
    StartsIs(t, "20" + text, 14);
    StartsIs(t, "19" + text, 14);
  }

  lemma {:induction false} StartsIs(t: string, s: string, n: nat)
    ensures Starts(t, s, n) ==> t == First(s, n)
  {
  }

  // Four digits that give a year from 1950 to 2049.
  ghost predicate IsYear(y: string) {
    |y| == 4 && AllIn(y, DIGITS) && 1950 <= Number(y) <= 2049
  }

  /** A UTCTime that starts with two digits is in the year from 1950 to 2049 that ends in them (section 4.1.2.5.1 of
      RFC 5280). */
  lemma {:induction false} UtcYear(rules: Rules, value: bytes, y: string, t: string)
    requires var text := Ascii(value);
             |text| > 2 && text[|text| - 1] == 'Z' && IsYear(y) && y[2..] == text[..2]
             && Starts(t, y + text[2..], 14)
    ensures DerTime(rules, 0x17, value) == Need(rules.calendar(t))
  {
    hide Ascii, ShortInt, IsNumeral, Number, Starts;
    var text := Ascii(value);
    YearDigits(y);
    StartsIs(t, y + text[2..], 14);
    var n := 10 * (text[0] as int - '0' as int) + (text[1] as int - '0' as int);
    assert y == y[..2] + text[..2];
    assert y + text[2..] == y[..2] + text;
    TwoDigitsRead(text[..2], n);
  }

  lemma {:induction false} TwoDigitsRead(s: string, n: int)
    requires |s| == 2 && AllIn(s, DIGITS) && n == 10 * (s[0] as int - '0' as int) + (s[1] as int - '0' as int)
    ensures ShortInt(s) == Some(n)
  {
    NumberOf(s);
    assert s == "" + "" + s + "";
    hide Number;
    NumeralReads(s, n, "", "", s, "");
  }

  lemma {:induction false} YearDigits(y: string)
    requires IsYear(y)
    ensures AllIn(y[2..], DIGITS)
    ensures var n := 10 * (y[2] as int - '0' as int) + (y[3] as int - '0' as int);
            y[..2] == if n >= 50 then "19" else "20"
  {
    DigitIsNoBlank();
    assert forall i | 0 <= i < 4 :: y[i] in y;
    forall i | 0 <= i < 4 ensures IsDigit(y[i]) {
      CharsAre(y[i]);
    }
    assert y[..3][..2] == y[..2] && y[..2][..1] == y[..1] && y[..1][..0] == "";
    assert Number(y[..1]) == y[0] as int - '0' as int;
    assert Number(y[..2]) == 10 * Number(y[..1]) + (y[1] as int - '0' as int);
    assert Number(y[..3]) == 10 * Number(y[..2]) + (y[2] as int - '0' as int);
    assert y[..2] == [y[0], y[1]];
  }

  // ---- Digits ----

  lemma {:induction false} DecimalsMean(n: nat, k: nat)
    requires k > 0
    ensures Decimals(n) <= k <==> n < PowerOfTen(k)
    decreases k
  {
    if k == 1 {
      assert PowerOfTen(1) == 10 * PowerOfTen(0) == 10;
    } else {
      PowerGrows(k - 1);
      if n >= 10 {
        DecimalsMean(n / 10, k - 1);
      }
    }
  }

  lemma {:induction false} PowerGrows(k: nat)
    ensures k > 0 ==> PowerOfTen(k) >= 10
  {
    if k > 1 {
      PowerGrows(k - 1);
    }
  }

  /** An OID is written out exactly where each arc is below the power of ten that the limit calls for. */
  lemma {:induction false} WritableMeans(rules: Rules, oid: Oid)
    ensures Writable(rules, oid) <==>
            rules.maxDigits.None? || forall i | 0 <= i < |oid| :: oid[i] < PowerOfTen(rules.maxDigits.value)
  {
    if rules.maxDigits.Some? {
      forall i | 0 <= i < |oid|
        ensures Decimals(oid[i]) <= rules.maxDigits.value <==> oid[i] < PowerOfTen(rules.maxDigits.value)
      {
        DecimalsMean(oid[i], rules.maxDigits.value);
      }
    }
  }
}
