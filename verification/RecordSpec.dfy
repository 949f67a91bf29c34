/**
  The typed records of `ByteArray` (src/bytearray.cc): fixed-width integers, ZigZag and varint
  integers, and strings, as byte sequences. The build modelled is the one in which `SwapToLittle`
  is the identity (src/include/endian.hh:29-33), on a little-endian machine.

  A value of an n-bit type is used in two forms: the number `v`, and its bit pattern, a natural
  number below `m` = 2^n.
 */
module RecordSpec {
  import opened Common

  datatype Width = W8 | W16 | W32 | W64

  function Size(w: Width): nat {
    match w case W8 => 1 case W16 => 2 case W32 => 4 case W64 => 8
  }

  /** The number of bit patterns of a type. */
  function Patterns(w: Width): (m: nat)
    ensures m % 4 == 0 && m >= 256
  {
    match w case W8 => 0x100 case W16 => 0x1_0000 case W32 => 0x1_0000_0000 case W64 => 0x1_0000_0000_0000_0000
  }

  predicate InType(v: int, signed: bool, m: nat) {
    if signed then 0 <= 2 * v + m < 2 * m else 0 <= v < m
  }

  function Pattern(v: int, m: nat): (u: int) {
    if v < 0 then v + m else v
  }

  function Value(u: nat, signed: bool, m: nat): int {
    if signed && 2 * u >= m then u - m else u
  }

  // ----- fixed width -----

  function LeBytes(u: nat, n: nat): (s: seq<Byte>)
    ensures |s| == n
  {
    if n == 0 then [] else [u % 256] + LeBytes(u / 256, n - 1)
  }

  function LeValue(s: seq<Byte>): nat {
    if s == [] then 0 else s[0] + 256 * LeValue(s[1..])
  }

  function Pow256(n: nat): (p: nat)
    ensures p > 0
  {
    if n == 0 then 1 else 256 * Pow256(n - 1)
  }

  lemma {:induction false} LeRoundTrip(u: nat, n: nat)
    requires u < Pow256(n)
    ensures LeValue(LeBytes(u, n)) == u
  {
    if n > 0 { LeRoundTrip(u / 256, n - 1); }
  }

  lemma PatternsArePowers(w: Width)
    ensures Patterns(w) == Pow256(Size(w))
  {
    assert Pow256(1) == 0x100 && Pow256(2) == 0x1_0000;
    assert Pow256(3) == 0x100_0000 && Pow256(4) == 0x1_0000_0000;
    assert Pow256(5) == 0x100_0000_0000 && Pow256(6) == 0x1_0000_0000_0000;
    assert Pow256(7) == 0x100_0000_0000_0000 && Pow256(8) == 0x1_0000_0000_0000_0000;
  }

  // ----- ZigZag -----

  /** `(val << 1) ^ (val >> (n - 1))` on a pattern. The right shift of a signed type spreads the sign
      bit over all n bits; that of an unsigned type leaves it as the lowest bit. */
  function EncodeZigZag(u: nat, signed: bool, m: nat): (z: nat)
    requires u < m && m % 4 == 0
    ensures z < m
  {
    var shifted := if 2 * u < m then 2 * u else 2 * u - m;
    if 2 * u < m then shifted
    else if signed then m - 1 - shifted
    else shifted + 1
  }

  /** `(val >> 1) ^ -(val & 1)`. */
  function DecodeZigZag(z: nat, m: nat): (u: nat)
    requires z < m
    ensures u < m
  {
    if z % 2 == 0 then z / 2 else m - 1 - z / 2
  }

  /** ZigZag is undone for every value of a signed type, and for an unsigned type exactly for the
      lower half of its values. */
  lemma ZigZagRoundTrip(u: nat, signed: bool, m: nat)
    requires u < m && m % 4 == 0
    ensures DecodeZigZag(EncodeZigZag(u, signed, m), m) == u <==> signed || 2 * u < m
  {
    var h := m / 4;
    assert m == 4 * h;
    if 2 * u >= m {
      if signed {
        assert EncodeZigZag(u, signed, m) == 2 * (m - 1 - u) + 1;
      } else {
        assert EncodeZigZag(u, signed, m) == 2 * (u - 2 * h) + 1;
      }
    }
  }

  // ----- varints -----

  function Groups(v: nat): (n: nat)
    ensures n >= 1
  {
    if v < 128 then 1 else 1 + Groups(v / 128)
  }

  function TopGroup(v: nat): (b: nat)
    ensures b < 128
  {
    if v < 128 then v else TopGroup(v / 128)
  }

  /** The most groups that the loop of `EncodeVarint` looks at. */
  function MaxGroups(w: Width): nat {
    match w case W8 => 2 case W16 => 3 case W32 => 5 case W64 => 10
  }

  /** The bytes that `EncodeVarint` counts, `junk` being what the local buffer held before. Its index
      does not move on continuation groups, so only the top group arrives, in the first byte; and a
      negative value is shifted until the loop gives up with no bytes. */
  function EncodeVarint(v: int, junk: seq<Byte>): (s: seq<Byte>)
    requires v >= 0 ==> Groups(v) <= |junk|
    ensures |s| == if v < 0 then 0 else Groups(v)
  {
    if v < 0 then [] else [TopGroup(v)] + junk[1..Groups(v)]
  }

  lemma {:induction false} GroupsBound(v: nat, n: nat)
    requires n >= 1 && v < Pow128(n)
    ensures Groups(v) <= n
  {
    if n == 1 {
      assert Pow128(1) == 128;
    } else if v >= 128 {
      assert v / 128 < Pow128(n - 1);
      GroupsBound(v / 128, n - 1);
    }
  }

  function Pow128(n: nat): nat {
    if n == 0 then 1 else 128 * Pow128(n - 1)
  }

  /** Every value fits into the groups of its type. */
  lemma GroupsFit(v: int, signed: bool, w: Width)
    requires InType(v, signed, Patterns(w)) && v >= 0
    ensures Groups(v) <= MaxGroups(w) <= 10
  {
    assert Pow128(1) == 0x80 && Pow128(2) == 0x4000 && Pow128(3) == 0x20_0000 && Pow128(4) == 0x1000_0000;
    assert Pow128(5) == 0x8_0000_0000 && Pow128(6) == 0x400_0000_0000 && Pow128(7) == 0x2_0000_0000_0000;
    assert Pow128(8) == 0x100_0000_0000_0000 && Pow128(9) == 0x8000_0000_0000_0000;
    assert Pow128(10) == 0x40_0000_0000_0000_0000;
    GroupsBound(v, MaxGroups(w));
  }

  /** The read loop takes bytes up to the first without a continuation bit, at most ten;
      `DecodeVarint` then uses only the first of them. */
  function VarintLength(s: seq<Byte>): (n: Option<nat>)
    ensures n.Some? ==> 1 <= n.value <= |s|
  {
    VarintLengthFrom(s, 0)
  }

  function VarintLengthFrom(s: seq<Byte>, i: nat): (n: Option<nat>)
    requires i < 10
    ensures n.Some? ==> i < n.value <= |s|
    decreases 10 - i
  {
    if i >= |s| then None
    else if s[i] < 128 || i == 9 then Some(i + 1)
    else VarintLengthFrom(s, i + 1)
  }

  function DecodeVarint(s: seq<Byte>): Option<(nat, nat)> {
    var n := VarintLength(s);
    if n == None then None
    else Some((if n.value == 10 && s[9] >= 128 then 0 else s[0], n.value))
  }

  // ----- records -----

  datatype Shape = AFixed(w: Width, signed: bool) | AVarint(w: Width, signed: bool) | AString

  datatype Record = Fixed(w: Width, signed: bool, v: int) | Varint(w: Width, signed: bool, v: int)
      | Text(bytes: seq<Byte>)

  function ShapeOf(r: Record): Shape {
    match r
    case Fixed(w, signed, _) => AFixed(w, signed)
    case Varint(w, signed, _) => AVarint(w, signed)
    case Text(_) => AString
  }

  predicate WellTyped(r: Record) {
    match r
    case Fixed(w, signed, v) => InType(v, signed, Patterns(w))
    case Varint(w, signed, v) => InType(v, signed, Patterns(w))
    case Text(bytes) => |bytes| < Patterns(W64)
  }

  /** What `EncodeVarint` is called with for a value of a type: a number of the same type. */
  function ZigZagged(v: int, signed: bool, m: nat): (z: int)
    requires InType(v, signed, m) && m % 4 == 0
    ensures InType(z, signed, m)
  {
    Value(EncodeZigZag(Pattern(v, m), signed, m), signed, m)
  }

  function EncodeInt(w: Width, signed: bool, v: int, junk: seq<Byte>): seq<Byte>
    requires InType(v, signed, Patterns(w)) && |junk| >= 10
  {
    var z := ZigZagged(v, signed, Patterns(w));
    if z >= 0 then GroupsFit(z, signed, w); EncodeVarint(z, junk) else []
  }

  function Encode(r: Record, junk: seq<Byte>): seq<Byte>
    requires WellTyped(r) && |junk| >= 10
  {
    match r
    case Fixed(w, signed, v) => LeBytes(Pattern(v, Patterns(w)), Size(w))
    case Varint(w, signed, v) => EncodeInt(w, signed, v, junk)
    case Text(bytes) => EncodeInt(W64, false, |bytes|, junk) + bytes
  }

  /** One record from the front of `s`, and the number of bytes it took; `None` when `s` is too
      short. A string takes its length as a signed varint, used as an unsigned number. */
  function Decode(shape: Shape, s: seq<Byte>): (r: Option<(Record, nat)>)
    ensures r.Some? ==> 1 <= r.value.1 <= |s|
  {
    match shape
    case AFixed(w, signed) =>
      if |s| < Size(w) then None
      else Some((Fixed(w, signed, Value(LeValue(s[..Size(w)]), signed, Patterns(w))), Size(w)))
    case AVarint(w, signed) =>
      var d := DecodeVarint(s);
      if d == None then None
      else Some((Varint(w, signed, Value(DecodeZigZag(d.value.0, Patterns(w)), signed, Patterns(w))), d.value.1))
    case AString =>
      var d := DecodeVarint(s);
      if d == None then None else
      var n := DecodeZigZag(d.value.0, Patterns(W64));
      if d.value.1 + n > |s| then None else Some((Text(s[d.value.1..d.value.1 + n]), d.value.1 + n))
  }

  /** What a caller can check before a write: the varint needs one group, and an unsigned value is
      in the lower half of its type. */
  predicate Faithful(r: Record)
    requires WellTyped(r)
  {
    match r
    case Fixed(_, _, _) => true
    case Varint(w, signed, v) => if signed then -64 <= v < 64 else v < 64
    case Text(bytes) => |bytes| < 64
  }

  lemma FaithfulInt(v: int, signed: bool, m: nat)
    requires InType(v, signed, m) && m % 4 == 0 && m >= 256
    ensures var z := ZigZagged(v, signed, m);
            && (0 <= z < 128 && (signed || 2 * v < m) <==> if signed then -64 <= v < 64 else v < 64)
            && (0 <= z < 128 && (signed || 2 * v < m) ==> Value(DecodeZigZag(z, m), signed, m) == v)
            && (0 <= z < 128 && !signed && 2 * v >= m ==> DecodeZigZag(z, m) != v)
  {
    var h := m / 4;
    assert m == 4 * h;
    ZigZagRoundTrip(Pattern(v, m), signed, m);
  }

  lemma DecodeOneGroup(z: nat, rest: seq<Byte>)
    requires z < 128
    ensures DecodeVarint([z] + rest) == Some((z, 1))
  {
  }

  lemma IntRoundTrip(w: Width, signed: bool, v: int, junk: seq<Byte>, rest: seq<Byte>)
    requires InType(v, signed, Patterns(w)) && |junk| >= 10
    ensures var s, m := EncodeInt(w, signed, v, junk), Patterns(w);
            var d := DecodeVarint(s + rest);
            if Faithful(Varint(w, signed, v)) then
              |s| == 1 && d.Some? && d.value.1 == 1 && d.value.0 < 128
                  && Value(DecodeZigZag(d.value.0, m), signed, m) == v
            else
              !(d.Some? && d.value.1 == |s| && Value(DecodeZigZag(d.value.0, m), signed, m) == v)
  {
    var m := Patterns(w);
    var z := ZigZagged(v, signed, m);
    FaithfulInt(v, signed, m);
    var s := EncodeInt(w, signed, v, junk);
    if z >= 0 {
      GroupsFit(z, signed, w);
      assert s + rest == [TopGroup(z)] + (junk[1..Groups(z)] + rest);
      DecodeOneGroup(TopGroup(z), junk[1..Groups(z)] + rest);
    }
  }

  /** A record comes back, and takes exactly the bytes that were written for it, whatever stood in
      the local buffer and whatever follows, if and only if it is `Faithful`. */
  lemma RecordRoundTrip(r: Record, junk: seq<Byte>, rest: seq<Byte>)
    requires WellTyped(r) && |junk| >= 10
    ensures Decode(ShapeOf(r), Encode(r, junk) + rest) == Some((r, |Encode(r, junk)|)) <==> Faithful(r)
  {
    var s := Encode(r, junk);
    match r
    case Fixed(w, signed, v) =>
      assert (s + rest)[..Size(w)] == s;
      PatternsArePowers(w);
      LeRoundTrip(Pattern(v, Patterns(w)), Size(w));
    case Varint(w, signed, v) =>
      IntRoundTrip(w, signed, v, junk, rest);
    case Text(bytes) =>
      var head := EncodeInt(W64, false, |bytes|, junk);
      IntRoundTrip(W64, false, |bytes|, junk, bytes + rest);
      assert s + rest == head + (bytes + rest);
      if |bytes| < 64 {
        assert (s + rest)[1..1 + |bytes|] == bytes;
      }
  }

  // ----- sequences of records -----

  function EncodeAll(rs: seq<Record>, junk: seq<Byte>): seq<Byte>
    requires (forall i :: 0 <= i < |rs| ==> WellTyped(rs[i])) && |junk| >= 10
  {
    if rs == [] then [] else Encode(rs[0], junk) + EncodeAll(rs[1..], junk)
  }

  function DecodeAll(shapes: seq<Shape>, s: seq<Byte>): Option<seq<Record>> {
    if shapes == [] then Some([]) else
    var d := Decode(shapes[0], s);
    if d == None then None else
    var rest := DecodeAll(shapes[1..], s[d.value.1..]);
    if rest == None then None else Some([d.value.0] + rest.value)
  }

  function ShapesOf(rs: seq<Record>): (shapes: seq<Shape>)
    ensures |shapes| == |rs|
  {
    if rs == [] then [] else [ShapeOf(rs[0])] + ShapesOf(rs[1..])
  }

  lemma {:induction false} ShapeAt(rs: seq<Record>, i: nat)
    requires i < |rs|
    ensures ShapesOf(rs)[i] == ShapeOf(rs[i])
  {
    if i > 0 { ShapeAt(rs[1..], i - 1); }
  }

  /** Any sequence of faithful records is returned by the same sequence of reads. */
  lemma {:induction false} RecordsRoundTrip(rs: seq<Record>, junk: seq<Byte>, rest: seq<Byte>)
    requires forall i :: 0 <= i < |rs| ==> WellTyped(rs[i]) && Faithful(rs[i])
    requires |junk| >= 10
    ensures DecodeAll(ShapesOf(rs), EncodeAll(rs, junk) + rest) == Some(rs)
  {
    if rs != [] {
      var head, tail := Encode(rs[0], junk), EncodeAll(rs[1..], junk);
      RecordRoundTrip(rs[0], junk, tail + rest);
      RecordsRoundTrip(rs[1..], junk, rest);
      hide Encode, Decode, Faithful, WellTyped, DecodeAll;
      Assoc(head, tail, rest);
      assert (head + (tail + rest))[|head|..] == tail + rest;
      DecodeCons(ShapeOf(rs[0]), ShapesOf(rs[1..]), head + (tail + rest), rs[0], |head|, rs[1..]);
      assert rs == [rs[0]] + rs[1..];
    }
  }

  lemma Assoc(a: seq<Byte>, b: seq<Byte>, c: seq<Byte>)
    ensures (a + b) + c == a + (b + c)
  {
  }

  lemma DecodeCons(shape: Shape, shapes: seq<Shape>, s: seq<Byte>, r: Record, n: nat, rs: seq<Record>)
    requires Decode(shape, s) == Some((r, n)) && DecodeAll(shapes, s[n..]) == Some(rs)
    ensures DecodeAll([shape] + shapes, s) == Some([r] + rs)
  {
    hide Decode;
    assert ([shape] + shapes)[1..] == shapes;
  }

  /** The bytes of a faithful record do not depend on what stood in the local buffer. */
  lemma EncodeIgnoresJunk(r: Record, junk: seq<Byte>, junk': seq<Byte>)
    requires WellTyped(r) && Faithful(r) && |junk| >= 10 && |junk'| >= 10
    ensures Encode(r, junk) == Encode(r, junk') && Encode(r, junk) != []
  {
    match r
    case Fixed(_, _, _) =>
    case Varint(w, signed, v) => FaithfulInt(v, signed, Patterns(w));
    case Text(bytes) => FaithfulInt(|bytes|, false, Patterns(W64));
  }

  lemma {:induction false} EncodeAllAppend(rs: seq<Record>, r: Record, junk: seq<Byte>)
    requires (forall i :: 0 <= i < |rs| ==> WellTyped(rs[i])) && WellTyped(r) && |junk| >= 10
    ensures EncodeAll(rs + [r], junk) == EncodeAll(rs, junk) + Encode(r, junk)
  {
    hide Encode;
    if rs == [] {
      assert [r][1..] == [] && rs + [r] == [r];
      assert EncodeAll([r], junk) == Encode(r, junk) + EncodeAll([], junk);
    } else {
      EncodeAllAppend(rs[1..], r, junk);
      assert (rs + [r])[1..] == rs[1..] + [r];
    }
  }
}
