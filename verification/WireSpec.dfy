/**
  The bytes of the typed records of `ByteArray` (src/bytearray.cc:197-304): where each byte of a number goes, and which
  byte a small number or length is, without the functions that encode and decode them.
 */
module WireSpec {
  import opened Arithmetic
  import opened Common
  import opened RecordSpec

  // ----- fixed width -----

  lemma DivTwice(u: nat, a: nat, b: nat)
    requires a > 0 && b > 0
    ensures a * b > 0 && u / a / b == u / (a * b)
  {
    var q, r := u / a / b, u / a % b;
    assert u / a == q * b + r;
    assert u == (q * b + r) * a + u % a;
    assert r * a + u % a < a * b by { Distribute(r, 1, a); LessTimes(r + 1, b, a); }
    assert u == q * (a * b) + (r * a + u % a);
    Multiple(r, a);
    DivModUnique(u, a * b, q, r * a + u % a);
  }

  lemma LessTimes(n: nat, m: nat, a: nat)
    requires n <= m
    ensures n * a <= m * a
  {
  }

  lemma {:induction false} LeBytesAt(u: nat, n: nat, i: nat)
    requires i < n
    ensures LeBytes(u, n)[i] == u / Pow256(i) % 256
    decreases n
  {
    if i > 0 {
      LeBytesAt(u / 256, n - 1, i - 1);
      DivTwice(u, 256, Pow256(i - 1));
    }
  }

  lemma {:induction false} Pow256Splits(n: nat, i: nat) returns (k: nat)
    requires i < n
    ensures Pow256(n) == k * 256 * Pow256(i)
    decreases n
  {
    if i == n - 1 {
      k := 1;
    } else {
      k := Pow256Splits(n - 1, i);
      var p := Pow256(i);
      assert Pow256(n) == 256 * (k * 256 * p) == 256 * k * 256 * p;
      k := 256 * k;
    }
  }

  lemma AddMultiple(v: int, p: nat, k: nat)
    requires p > 0
    ensures (v + k * 256 * p) / p % 256 == v / p % 256
  {
    var q, r := v / p, v % p;
    assert v + k * 256 * p == (q + k * 256) * p + r;
    DivModUnique(v + k * 256 * p, p, q + k * 256, r);
    var a, b := q / 256, q % 256;
    DivModUnique(q + k * 256, 256, a + k, b);
  }

  /** Byte `i` of a fixed-width number is digit `i` to the base 256, the least one first; for a negative number of
      its two's complement, which is what rounding down makes of it. */
  lemma FixedByte(w: Width, signed: bool, v: int, junk: seq<Byte>, i: nat)
    requires WellTyped(Fixed(w, signed, v)) && |junk| >= 10 && i < Size(w)
    ensures var s := Encode(Fixed(w, signed, v), junk); |s| == Size(w) && s[i] == v / Pow256(i) % 256
  {
    var n := Size(w);
    LeBytesAt(Pattern(v, Patterns(w)), n, i);
    if v < 0 {
      PatternsArePowers(w);
      var k := Pow256Splits(n, i);
      AddMultiple(v, Pow256(i), k);
    }
  }

  // ----- varints -----

  /** ZigZag in numbers: signed ones alternate, 0, -1, 1, -2, ...; unsigned ones are doubled, and those of the upper
      half come back to the odd numbers. */
  lemma ZigZagIs(v: int, signed: bool, m: nat)
    requires InType(v, signed, m) && m % 4 == 0 && m > 0
    ensures Pattern(v, m) < m
    ensures EncodeZigZag(Pattern(v, m), signed, m) ==
            if signed then (if v >= 0 then 2 * v else -2 * v - 1)
            else if 2 * v < m then 2 * v else 2 * v - m + 1
  {
  }

  /** `Groups` is the number of base-128 digits, and `TopGroup` the first of them. */
  lemma {:induction false} GroupsAreDigits(v: nat)
    ensures var p := Pow128(Groups(v) - 1);
            && TopGroup(v) * p <= v < (TopGroup(v) + 1) * p && TopGroup(v) < 128 && (Groups(v) > 1 ==> TopGroup(v) > 0)
    decreases v
  {
    if v >= 128 {
      GroupsAreDigits(v / 128);
      var t, p := TopGroup(v / 128), Pow128(Groups(v / 128) - 1);
      assert Pow128(Groups(v) - 1) == 128 * p;
      OneDigitMore(v, t, p);
    } else {
      assert Pow128(0) == 1;
    }
  }

  lemma OneDigitMore(v: nat, t: nat, p: nat)
    requires t * p <= v / 128 < (t + 1) * p
    ensures t * (128 * p) <= v < (t + 1) * (128 * p)
  {
    var low, high := t * p, (t + 1) * p;
    assert t * (128 * p) == 128 * low && (t + 1) * (128 * p) == 128 * high;
  }

  /** A varint of a signed type takes no byte at all if the value is beyond a quarter of the range; any other takes
      as many bytes as its ZigZag form has base-128 digits. */
  lemma VarintSize(w: Width, signed: bool, v: int, junk: seq<Byte>)
    requires WellTyped(Varint(w, signed, v)) && |junk| >= 10
    ensures var m, s := Patterns(w), Encode(Varint(w, signed, v), junk);
            var z := if signed then (if v >= 0 then 2 * v else -2 * v - 1) else if 2 * v < m then 2 * v else 2 * v - m + 1;
            if signed && (v >= m / 4 || v < -(m / 4)) then s == []
            else z >= 0 && |s| == Groups(z) && s[0] == TopGroup(z)
  {
    var m := Patterns(w);
    ZigZagIs(v, signed, m);
    var z := ZigZagged(v, signed, m);
    if z >= 0 { GroupsFit(z, signed, w); }
    hide Groups, TopGroup, EncodeZigZag;
  }

  /** The bytes of records that come back: a signed number is one byte, twice itself or one less than twice its
      absolute value; an unsigned one is doubled, and so is the length in front of a string. */
  lemma FaithfulBytes(r: Record, junk: seq<Byte>)
    requires WellTyped(r) && Faithful(r) && |junk| >= 10
    ensures match r
            case Fixed(_, _, _) => true
            case Varint(_, _, v) => Encode(r, junk) == [if v >= 0 then 2 * v else -2 * v - 1]
            case Text(bytes) => Encode(r, junk) == [2 * |bytes|] + bytes
  {
    match r
    case Fixed(_, _, _) =>
    case Varint(w, signed, v) => SmallVarint(w, signed, v, junk);
    case Text(bytes) => SmallVarint(W64, false, |bytes|, junk);
  }

  lemma SmallVarint(w: Width, signed: bool, v: int, junk: seq<Byte>)
    requires WellTyped(Varint(w, signed, v)) && Faithful(Varint(w, signed, v)) && |junk| >= 10
    ensures EncodeInt(w, signed, v, junk) == [if v >= 0 then 2 * v else -2 * v - 1]
  {
    VarintSize(w, signed, v, junk);
    var z := if v >= 0 then 2 * v else -2 * v - 1;
    assert Patterns(w) / 4 >= 64;
    assert Groups(z) == 1 && TopGroup(z) == z;
  }

  // ----- reading a varint -----

  /** The first `n` bytes are what the read loop collects: up to the first byte without a continuation bit, and ten
      at most. */
  predicate IsVarint(s: seq<Byte>, n: nat) {
    && 1 <= n <= 10 && n <= |s|
    && (forall i :: 0 <= i < n - 1 ==> s[i] >= 128)
    && (n < 10 ==> s[n - 1] < 128)
  }

  lemma {:induction false} LengthFrom(s: seq<Byte>, i: nat, n: nat)
    requires i < 10 && forall j :: 0 <= j < i && j < |s| ==> s[j] >= 128
    ensures VarintLengthFrom(s, i) == Some(n) <==> i < n && IsVarint(s, n)
    decreases 10 - i
  {
    if i < |s| && s[i] >= 128 && i < 9 {
      LengthFrom(s, i + 1, n);
    }
  }

  /** Exactly those bytes are taken, and nothing is read if `s` ends before. Of a varint of several bytes only the
      first counts, with its continuation bit; and ten bytes that all go on stand for 0. */
  lemma VarintRead(s: seq<Byte>, n: nat)
    ensures (DecodeVarint(s).Some? && DecodeVarint(s).value.1 == n) <==> IsVarint(s, n)
    ensures IsVarint(s, n) ==> DecodeVarint(s).value.0 == if n == 10 && s[9] >= 128 then 0 else s[0]
  {
    LengthFrom(s, 0, n);
  }
}
