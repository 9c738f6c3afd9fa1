/** The Adler-32 checksum of section 2.2 of RFC 1950. */
module Adler32 {
  import opened Bytes

  const BASE: nat := 65521

  datatype Sums = Sums(a: nat, b: nat)

  function Update(s: Sums, data: bytes): Sums
    decreases |data|
  {
    if data == [] then s
    else
      var a := (s.a + data[0]) % BASE;
      Update(Sums(a, (s.b + a) % BASE), data[1..])
  }

  lemma {:induction false} UpdateBounds(s: Sums, data: bytes)
    requires s.a < BASE && s.b < BASE
    ensures Update(s, data).a < BASE && Update(s, data).b < BASE
    decreases |data|
  {
    if data != [] {
      var a := (s.a + data[0]) % BASE;
      UpdateBounds(Sums(a, (s.b + a) % BASE), data[1..]);
    }
  }

  function Checksum(data: bytes): (c: nat)
    ensures c < TWO_32
  {
    UpdateBounds(Sums(1, 0), data);
    var s := Update(Sums(1, 0), data);
    s.b * 0x1_0000 + s.a
  }

  function Sum(data: bytes): nat {
    if data == [] then 0 else data[0] + Sum(data[1..])
  }

  lemma {:induction false} LowHalfIsSum(s: Sums, data: bytes)
    requires s.a < BASE
    ensures Update(s, data).a == (s.a + Sum(data)) % BASE
    decreases |data|
  {
    if data != [] {
      var a := (s.a + data[0]) % BASE;
      LowHalfIsSum(Sums(a, (s.b + a) % BASE), data[1..]);
      ModAdd(s.a + data[0], Sum(data[1..]));
    }
  }

  lemma {:induction false} ModAdd(x: nat, y: nat)
    ensures (x % BASE + y) % BASE == (x + y) % BASE
  {
  }

  lemma {:induction false} SumUpdate(data: bytes, i: nat, v: byte)
    requires i < |data|
    ensures Sum(data[i := v]) == Sum(data) - data[i] + v
    decreases |data|
  {
    if i == 0 {
      assert data[0 := v][1..] == data[1..];
    } else {
      assert data[i := v][1..] == data[1..][i - 1 := v];
      SumUpdate(data[1..], i - 1, v);
    }
  }

  lemma {:induction false} LowHalf(s: Sums)
    requires s.a < BASE
    ensures (s.b * 0x1_0000 + s.a) % 0x1_0000 == s.a
  {
  }

  /** Changing any one byte changes the checksum. */
  lemma {:induction false} DetectsOneByte(data: bytes, i: nat, v: byte)
    requires i < |data| && v != data[i]
    ensures Checksum(data[i := v]) != Checksum(data)
  {
    hide Update, Sum;
    var s0 := Sums(1, 0);
    LowHalfIsSum(s0, data);
    LowHalfIsSum(s0, data[i := v]);
    SumUpdate(data, i, v);
    UpdateBounds(s0, data);
    UpdateBounds(s0, data[i := v]);
    NearIsDistinct(1 + Sum(data), 1 + Sum(data[i := v]));
    LowHalf(Update(s0, data));
    LowHalf(Update(s0, data[i := v]));
  }

  lemma {:induction false} NearIsDistinct(x: nat, y: nat)
    requires x != y && x < y + BASE && y < x + BASE
    ensures x % BASE != y % BASE
  {
  }

  // ---- The checksum in closed form ----

  // n * D1 + (n - 1) * D2 + ... + Dn
  function Weighted(data: bytes): nat {
    if data == [] then 0 else |data| * data[0] + Weighted(data[1..])
  }

  lemma {:induction false} ModMultiple(z: nat, k: nat)
    ensures (z + k * BASE) % BASE == z % BASE
    decreases k
  {
    if k > 0 {
      ModMultiple(z, k - 1);
      assert z + k * BASE == (z + (k - 1) * BASE) + BASE;
    }
  }

  lemma {:induction false} ModTimes(x: nat, n: nat, y: nat)
    ensures (x + n * (y % BASE)) % BASE == (x + n * y) % BASE
  {
    var q := y / BASE;
    assert y == y % BASE + q * BASE;
    Distributes(n, y % BASE, q);
    ModMultiple(x + n * (y % BASE), n * q);
  }

  lemma {:induction false} Distributes(n: nat, r: nat, q: nat)
    ensures n * (r + q * BASE) == n * r + (n * q) * BASE
  {
  }

  lemma {:induction false} TimesSum(n: nat, x: nat, y: nat)
    ensures n * (x + y) == n * x + n * y
  {
  }

  // One byte d, before n more.
  lemma {:induction false} OneByte(a0: nat, b0: nat, d: nat, n: nat, w: nat)
    ensures var a := (a0 + d) % BASE;
            ((b0 + a) % BASE + n * a + w) % BASE == (b0 + (n + 1) * a0 + ((n + 1) * d + w)) % BASE
  {
    var a := (a0 + d) % BASE;
    var na := n * a;
    ModAdd(b0 + a, na + w);
    assert (n + 1) * a == na + a;
    ModTimes(b0 + w, n + 1, a0 + d);
    TimesSum(n + 1, a0, d);
  }

  lemma {:induction false} HighHalfIsWeighted(s: Sums, data: bytes)
    requires s.b < BASE
    ensures Update(s, data).b == (s.b + |data| * s.a + Weighted(data)) % BASE
    decreases |data|
  {
    if data != [] {
      var a := (s.a + data[0]) % BASE;
      HighHalfIsWeighted(Sums(a, (s.b + a) % BASE), data[1..]);
      OneByte(s.a, s.b, data[0], |data| - 1, Weighted(data[1..]));
    }
  }

  /** The two sums of section 2.2 of RFC 1950: one more than the sum of the n bytes, and n plus the sum of the bytes
      weighted from n down to 1, both modulo 65521. */
  lemma {:induction false} ChecksumMeans(data: bytes)
    ensures Checksum(data) == (|data| + Weighted(data)) % 65521 * 65536 + (1 + Sum(data)) % 65521
  {
    LowHalfIsSum(Sums(1, 0), data);
    HighHalfIsWeighted(Sums(1, 0), data);
  }
}
