/** Bytes and the fixed-width integers of the binary formats, in either byte order. */
module Bytes {
  import opened Options

  type byte = b: int | 0 <= b < 256

  type bytes = seq<byte>

  datatype Order = Little | Big

  const TWO_32: nat := 0x1_0000_0000

  function U16(o: Order, s: bytes, at: nat): (n: nat)
    requires at + 2 <= |s|
    ensures n < 0x10000
  {
    match o
    case Little => Sum4(s[at], s[at + 1], 0, 0)
    case Big => Sum4(s[at + 1], s[at], 0, 0)
  }

  function U32(o: Order, s: bytes, at: nat): (n: nat)
    requires at + 4 <= |s|
    ensures n < TWO_32
  {
    match o
    case Little => Sum4(s[at], s[at + 1], s[at + 2], s[at + 3])
    case Big => Sum4(s[at + 3], s[at + 2], s[at + 1], s[at])
  }

  // The number of four base-256 digits, least significant first.
  function Sum4(d0: int, d1: int, d2: int, d3: int): int {
    d0 + 0x100 * d1 + 0x1_0000 * d2 + 0x100_0000 * d3
  }

  function Put16(o: Order, n: nat): (s: bytes)
    requires n < 0x10000
    ensures |s| == 2 && U16(o, s, 0) == n
  {
    match o
    case Little => [n % 0x100, n / 0x100]
    case Big => [n / 0x100, n % 0x100]
  }

  function Put32(o: Order, n: nat): (s: bytes)
    requires n < TWO_32
    ensures |s| == 4 && U32(o, s, 0) == n
  {
    var q1 := n / 0x100;
    var q2 := q1 / 0x100;
    var q3 := q2 / 0x100;
    assert n == q1 * 0x100 + n % 0x100 && q1 == q2 * 0x100 + q1 % 0x100 && q2 == q3 * 0x100 + q2 % 0x100;
    assert q3 < 0x100;
    match o
    case Little => [n % 0x100, q1 % 0x100, q2 % 0x100, q3]
    case Big => [q3, q2 % 0x100, q1 % 0x100, n % 0x100]
  }

  // A field determines its bytes.
  lemma {:induction false} U32Injective(o: Order, s: bytes, t: bytes)
    requires |s| == |t| == 4 && U32(o, s, 0) == U32(o, t, 0)
    ensures s == t
  {
    assert s == [s[0], s[1], s[2], s[3]] && t == [t[0], t[1], t[2], t[3]];
    match o
    case Little => Digits(s[0], s[1], s[2], s[3], t[0], t[1], t[2], t[3]);
    case Big => Digits(s[3], s[2], s[1], s[0], t[3], t[2], t[1], t[0]);
  }

  lemma Digits(a0: byte, a1: byte, a2: byte, a3: byte, b0: byte, b1: byte, b2: byte, b3: byte)
    requires Sum4(a0, a1, a2, a3) == Sum4(b0, b1, b2, b3)
    ensures a0 == b0 && a1 == b1 && a2 == b2 && a3 == b3
  {
  }

  // Reading a field is reading its slice.
  lemma U32Slice(o: Order, s: bytes, at: nat)
    requires at + 4 <= |s|
    ensures U32(o, s, at) == U32(o, s[at..at + 4], 0)
  {
  }

  lemma U16Slice(o: Order, s: bytes, at: nat)
    requires at + 2 <= |s|
    ensures U16(o, s, at) == U16(o, s[at..at + 2], 0)
  {
  }

  lemma {:induction false} Put32OfU32(o: Order, s: bytes, at: nat)
    requires at + 4 <= |s|
    ensures Put32(o, U32(o, s, at)) == s[at..at + 4]
  {
    U32Slice(o, s, at);
    U32Injective(o, Put32(o, U32(o, s, at)), s[at..at + 4]);
  }

  lemma {:induction false} TwoDigits(low: byte, high: byte)
    ensures (low + 0x100 * high) % 0x100 == low && (low + 0x100 * high) / 0x100 == high
  {
  }

  lemma {:induction false} Put16OfU16(o: Order, s: bytes, at: nat)
    requires at + 2 <= |s|
    ensures Put16(o, U16(o, s, at)) == s[at..at + 2]
  {
    TwoDigits(s[at], s[at + 1]);
    TwoDigits(s[at + 1], s[at]);
    assert s[at..at + 2] == [s[at], s[at + 1]];
  }

  // os.pread checked to return every byte asked for.
  function Pread(file: bytes, length: nat, offset: nat): (r: Option<bytes>)
    ensures r.Some? ==> |r.value| == length
  {
    if offset + length <= |file| then Some(file[offset..offset + length]) else None
  }

  // int.bit_length
  function BitLength(n: nat): nat {
    if n == 0 then 0 else 1 + BitLength(n / 2)
  }

  function Pow2(k: nat): nat {
    if k == 0 then 1 else 2 * Pow2(k - 1)
  }

  // The number of binary digits.
  lemma {:induction false} BitLengthIs(n: nat)
    requires n > 0
    ensures BitLength(n) > 0 && Pow2(BitLength(n) - 1) <= n < Pow2(BitLength(n))
  {
    if n > 1 {
      BitLengthIs(n / 2);
    }
  }

  lemma {:induction false} SliceOfSlice(s: bytes, i: nat, j: nat, k: nat, l: nat)
    requires i <= j <= |s| && k <= l <= j - i
    ensures s[i..j][k..l] == s[i + k..i + l]
  {
    var a, b := s[i..j][k..l], s[i + k..i + l];
    assert |a| == |b|;
    forall m | 0 <= m < |a| ensures a[m] == b[m] {
      assert a[m] == s[i..j][k + m];
    }
  }

  // The bytes s lie at position pos.
  ghost predicate Lies(buf: bytes, pos: nat, s: bytes) {
    pos + |s| <= |buf| && buf[pos..pos + |s|] == s
  }

  lemma {:induction false} LiesSplit(buf: bytes, pos: nat, a: bytes, b: bytes)
    ensures Lies(buf, pos, a + b) <==> Lies(buf, pos, a) && Lies(buf, pos + |a|, b)
  {
    if pos + |a| + |b| <= |buf| {
      var s := buf[pos..pos + |a| + |b|];
      SliceOfSlice(buf, pos, pos + |a| + |b|, 0, |a|);
      SliceOfSlice(buf, pos, pos + |a| + |b|, |a|, |a| + |b|);
      assert (a + b)[0..|a|] == a && (a + b)[|a|..|a| + |b|] == b;
      assert s == s[0..|a|] + s[|a|..|a| + |b|];
    }
  }
}
