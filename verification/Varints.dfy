/** The base-128 varints of the Protocol Buffers wire format: the encoder, the two readers and
  * how they relate. */
module Varints {
  import opened Bits

  type byte = x: int | 0 <= x < 256 witness 0
  type uint32 = x: int | 0 <= x < 0x1_0000_0000 witness 0
  type uint64 = x: int | 0 <= x < 0x1_0000_0000_0000_0000 witness 0

  const TWO_32 := 0x1_0000_0000
  const TWO_63 := 0x8000_0000_0000_0000
  const TWO_64 := 0x1_0000_0000_0000_0000

  /** What a reader makes of its input: a value and the input left over, or one of two failures.
    * `Truncated` says that the input ended too early, so that more input could still change the
    * verdict; `Malformed` is final. The C code returns false for both. */
  datatype Outcome<+T> = Ok(value: T, rest: seq<byte>) | Truncated | Malformed

  // ----- the encoder -----

  function EncVarint(v: nat): (bs: seq<byte>)
    ensures |bs| >= 1
    ensures v < 0x80 ==> |bs| == 1
  {
    if v < 0x80 then [v] else [v % 0x80 + 0x80] + EncVarint(v / 0x80)
  }

  // ----- the 64-bit reader, by what it accepts -----

  /** The number of leading bytes that have the continuation bit. */
  function Span(input: seq<byte>): (k: nat)
    ensures k <= |input|
    ensures k < |input| ==> input[k] < 0x80
  {
    if input == [] || input[0] < 0x80 then 0 else 1 + Span(input[1..])
  }

  /** The little-endian number formed by the low seven bits of each byte. */
  function Payload(bs: seq<byte>): nat {
    if bs == [] then 0 else bs[0] % 0x80 + 0x80 * Payload(bs[1..])
  }

  function ReadVarint64(input: seq<byte>): (r: Outcome<uint64>)
    ensures r.Ok? ==> |r.rest| < |input|
  {
    var k := Span(input);
    if k >= 10 then Malformed
    else if k == |input| then Truncated
    else Ok(Payload(input[..k + 1]) % TWO_64, input[k + 1..])
  }

  // ----- the 32-bit reader, step by step -----

  /** The multibyte loop of the 32-bit reader. The position wraps like the C 8-bit counter. */
  function Varint32Tail(input: seq<byte>, result: uint32, bitpos: byte): (r: Outcome<uint32>)
    ensures r.Ok? ==> |r.rest| < |input|
    decreases |input|
  {
    if input == [] then Truncated
    else
      var b := input[0];
      if bitpos >= 32 && b % 0x80 != 0 && (result < 0x8000_0000 || b != SignExtension(bitpos)) then Malformed
      else
        var result' := if bitpos >= 32 then result else OrShifted32(result, b % 0x80, bitpos);
        var bitpos' := (bitpos + 7) % 256;
        if b >= 0x80 then Varint32Tail(input[1..], result', bitpos')
        else if bitpos' == 35 && b / 0x10 % 8 != 0 then Malformed
        else Ok(result', input[1..])
  }

  function SignExtension(bitpos: byte): byte {
    if bitpos < 63 then 0xFF else 0x01
  }

  /** result | (uint32_t)bits << bitpos */
  function OrShifted32(result: uint32, bits: nat, bitpos: nat): uint32 {
    assert bits * Pow2(bitpos) % TWO_32 >= 0;
    Powers();
    OrBound(result, bits * Pow2(bitpos) % TWO_32, 32);
    Or(result, bits * Pow2(bitpos) % TWO_32)
  }

  function ReadVarint32(input: seq<byte>): (r: Outcome<uint32>)
    ensures r.Ok? ==> |r.rest| < |input|
  {
    if input == [] then Truncated
    else if input[0] < 0x80 then Ok(input[0], input[1..])
    else Varint32Tail(input[1..], input[0] % 0x80, 7)
  }

  // ----- more input never changes a verdict that was already reached -----

  /** s is what a reader that returned r must return when b is appended to its input. */
  predicate Extends<T(==)>(r: Outcome<T>, s: Outcome<T>, b: seq<byte>) {
    && (r.Ok? ==> s == Ok(r.value, r.rest + b))
    && (r.Malformed? ==> s.Malformed?)
  }

  lemma {:induction false} SpanExtends(a: seq<byte>, b: seq<byte>)
    ensures Span(a) <= Span(a + b)
    ensures Span(a) < |a| ==> Span(a + b) == Span(a)
  {
    if a != [] && a[0] >= 0x80 {
      assert (a + b)[1..] == a[1..] + b;
      SpanExtends(a[1..], b);
    }
  }

  lemma ReadVarint64Extends(a: seq<byte>, b: seq<byte>)
    ensures Extends(ReadVarint64(a), ReadVarint64(a + b), b)
  {
    SpanExtends(a, b);
    var k := Span(a);
    if k < |a| {
      assert (a + b)[..k + 1] == a[..k + 1];
      assert (a + b)[k + 1..] == a[k + 1..] + b;
    }
  }

  lemma {:induction false} Varint32TailExtends(a: seq<byte>, b: seq<byte>, result: uint32, bitpos: byte)
    ensures Extends(Varint32Tail(a, result, bitpos), Varint32Tail(a + b, result, bitpos), b)
    decreases |a|
  {
    hide OrShifted32;
    if a != [] {
      assert (a + b)[1..] == a[1..] + b;
      if !(bitpos >= 32 && a[0] % 0x80 != 0 && (result < 0x8000_0000 || a[0] != SignExtension(bitpos))) {
        var result' := if bitpos >= 32 then result else OrShifted32(result, a[0] % 0x80, bitpos);
        Varint32TailExtends(a[1..], b, result', (bitpos + 7) % 256);
      }
    }
  }

  lemma ReadVarint32Extends(a: seq<byte>, b: seq<byte>)
    ensures Extends(ReadVarint32(a), ReadVarint32(a + b), b)
  {
    if a != [] {
      assert (a + b)[1..] == a[1..] + b;
      if a[0] >= 0x80 {
        Varint32TailExtends(a[1..], b, a[0] % 0x80, 7);
      }
    }
  }

  // ----- canonical encodings -----

  lemma {:induction false} EncVarintShape(v: nat, rest: seq<byte>)
    ensures Span(EncVarint(v) + rest) == |EncVarint(v)| - 1
    ensures Payload(EncVarint(v)) == v
  {
    if v >= 0x80 {
      EncVarintShape(v / 0x80, rest);
      assert (EncVarint(v) + rest)[1..] == EncVarint(v / 0x80) + rest;
      assert EncVarint(v)[1..] == EncVarint(v / 0x80);
    }
  }

  /** No varint is the beginning of another. */
  lemma EncVarintPrefixFree(v: nat, w: nat, x: seq<byte>, y: seq<byte>)
    requires EncVarint(v) + x == EncVarint(w) + y
    ensures v == w && x == y
  {
    EncVarintShape(v, x);
    EncVarintShape(w, y);
    var s, n := EncVarint(v) + x, |EncVarint(v)|;
    assert s[..n] == EncVarint(v) && s[..n] == EncVarint(w);
    assert s[n..] == x && s[n..] == y;
  }

  lemma {:induction false} EncVarintLength(v: nat, n: nat)
    requires v < Pow2(7 * n) && n >= 1
    ensures |EncVarint(v)| <= n
  {
    if v >= 0x80 {
      if n == 1 {
        Powers();
        assert false;
      } else {
        Doubling(7 * (n - 1));
        EncVarintLength(v / 0x80, n - 1);
      }
    }
  }

  lemma EncVarintFits(v: uint64)
    ensures |EncVarint(v)| <= 10
  {
    Powers();
    Doubling(63);
    EncVarintLength(v, 10);
  }

  /** The 64-bit reader inverts the encoder. */
  lemma ReadVarint64Inverts(v: uint64, rest: seq<byte>)
    ensures ReadVarint64(EncVarint(v) + rest) == Ok(v, rest)
  {
    var e := EncVarint(v);
    EncVarintShape(v, rest);
    EncVarintFits(v);
    assert (e + rest)[..|e|] == e;
    assert (e + rest)[|e|..] == rest;
    ModSmall(v);
  }

  lemma ModSmall(v: nat)
    ensures v < TWO_32 ==> v % TWO_32 == v
    ensures v < TWO_64 ==> v % TWO_64 == v
  {
  }

  /** v >> 7 * k */
  function Shr(v: nat, k: nat): nat {
    if k == 0 then v else Shr(v, k - 1) / 0x80
  }

  /** The k-th group of seven bits. */
  function Group(v: nat, k: nat): nat {
    Shr(v, k) % 0x80
  }

  /** Which 64-bit values the 32-bit reader lets through: those that fit, and those with bits 31 and
    * 63 set whose four groups in between are each all zeros or all ones. Bits 32 to 34 are ignored. */
  predicate Accepts32(v: uint64) {
    || v < TWO_32
    || (Group(v, 9) == 1 && Group(v, 4) % 0x10 >= 8 && forall k | 5 <= k <= 8 :: Group(v, k) in {0, 0x7F})
  }

  /** The loop from bit position 7 * k on accepts a canonical encoding of w if bit 31 was set. */
  predicate HighGroups(w: nat, k: nat)
    decreases w
  {
    if w < 0x80 then k == 9 && w == 1
    else w % 0x80 in {0, 0x7F} && HighGroups(w / 0x80, k + 1)
  }

  function HighLimit(k: nat): nat {
    if k == 5 then 0x8_0000_0000 else if k == 6 then 0x1000_0000 else if k == 7 then 0x20_0000
    else if k == 8 then 0x4000 else 0x80
  }

  lemma {:induction false} TailHigh(w: nat, k: nat, result: uint32, rest: seq<byte>)
    requires 5 <= k <= 9 && 0 < w < HighLimit(k)
    ensures Varint32Tail(EncVarint(w) + rest, result, 7 * k)
         == if result >= 0x8000_0000 && HighGroups(w, k) then Ok(result, rest) else Malformed
    decreases w
  {
    var input := EncVarint(w) + rest;
    assert input[0] == if w < 0x80 then w else w % 0x80 + 0x80;
    if w < 0x80 {
      assert input[1..] == rest;
    } else {
      assert input[1..] == EncVarint(w / 0x80) + rest;
      TailHigh(w / 0x80, k + 1, result, rest);
    }
  }

  /** One round of the multibyte loop on a canonical encoding. */
  lemma TailUnfold(w: nat, result: uint32, bitpos: byte, rest: seq<byte>)
    requires bitpos < 32
    ensures var g, next := w % 0x80, (bitpos + 7) % 256;
      Varint32Tail(EncVarint(w) + rest, result, bitpos)
      == if w >= 0x80 then Varint32Tail(EncVarint(w / 0x80) + rest, OrShifted32(result, g, bitpos), next)
         else if next == 35 && w / 0x10 % 8 != 0 then Malformed
         else Ok(OrShifted32(result, g, bitpos), rest)
  {
    hide OrShifted32;
    var input := EncVarint(w) + rest;
    assert input[0] == if w < 0x80 then w else w % 0x80 + 0x80;
    assert input[0] % 0x80 == w % 0x80;
    assert input[1..] == if w < 0x80 then rest else EncVarint(w / 0x80) + rest;
  }

  /** The place value of the group at bit position 7 * k. */
  function Weight(k: nat): nat {
    if k == 1 then 0x80 else if k == 2 then 0x4000 else if k == 3 then 0x20_0000 else 0x1000_0000
  }

  lemma WeightIsPower(k: nat)
    requires 1 <= k <= 4
    ensures Pow2(7 * k) == Weight(k)
  {
    Powers();
  }

  /** Below bit 28 the groups do not overlap and nothing is cut off. */
  lemma OrStep(result: uint32, g: nat, k: nat)
    requires 1 <= k <= 3 && g < 0x80 && result < Weight(k)
    ensures OrShifted32(result, g, 7 * k) == result + g * Weight(k) < Weight(k + 1)
  {
    WeightIsPower(k);
    assert g * Weight(k) < TWO_32;
    OrDisjoint(result, g, 7 * k);
  }

  /** At bit position 28 only four bits of the group are left. */
  lemma OrTop(result: uint32, g: nat)
    requires g < 0x80 && result < Weight(4)
    ensures OrShifted32(result, g, 28) == result + g % 0x10 * Weight(4)
  {
    WeightIsPower(4);
    assert g * 0x1000_0000 % TWO_32 == g % 0x10 * 0x1000_0000;
    OrDisjoint(result, g % 0x10, 28);
  }

  predicate LowAccepts(w: nat, k: nat)
    decreases 4 - k
  {
    if k < 4 then w < 0x80 || LowAccepts(w / 0x80, k + 1)
    else w < 0x10 || (w >= 0x80 && w % 0x10 >= 8 && HighGroups(w / 0x80, 5))
  }

  /** The loop below bit 32, when the bits collected so far and those still encoded make up v. */
  lemma {:induction false} TailLow(w: nat, k: nat, result: uint32, v: uint64, rest: seq<byte>)
    requires 1 <= k <= 4 && 0 < w && result < Weight(k) && v == result + w * Weight(k)
    ensures Varint32Tail(EncVarint(w) + rest, result, 7 * k)
         == if LowAccepts(w, k) then Ok(v % TWO_32, rest) else Malformed
    decreases 4 - k
  {
    hide Varint32Tail, EncVarint, OrShifted32;
    TailUnfold(w, result, 7 * k, rest);
    if k == 4 {
      TailTop(w, result, v, rest);
    } else {
      Regroup(w, k, result, v);
      var result' := OrShifted32(result, w % 0x80, 7 * k);
      if w >= 0x80 {
        TailLow(w / 0x80, k + 1, result', v, rest);
      } else {
        assert Varint32Tail(EncVarint(w) + rest, result, 7 * k) == Ok(result', rest);
      }
    }
  }

  lemma Regroup(w: nat, k: nat, result: uint32, v: nat)
    requires 1 <= k <= 3 && result < Weight(k) && v == result + w * Weight(k)
    ensures var result' := OrShifted32(result, w % 0x80, 7 * k);
            && result' < Weight(k + 1)
            && v == result' + w / 0x80 * Weight(k + 1)
            && (w < 0x80 ==> v % TWO_32 == result')
  {
    OrStep(result, w % 0x80, k);
    assert w == w % 0x80 + 0x80 * (w / 0x80);
    if k == 1 {
    } else if k == 2 {
    } else {
      assert k == 3;
    }
    ModSmall(v);
  }

  lemma TailTop(w: nat, result: uint32, v: uint64, rest: seq<byte>)
    requires 0 < w && result < 0x1000_0000 && v == result + w * 0x1000_0000
    ensures Varint32Tail(EncVarint(w) + rest, result, 28)
         == if LowAccepts(w, 4) then Ok(v % TWO_32, rest) else Malformed
  {
    hide Varint32Tail, EncVarint, OrShifted32, HighGroups;
    TailUnfold(w, result, 28, rest);
    OrTop(result, w % 0x80);
    TopRegroup(w, result, v);
    if w >= 0x80 {
      TailHigh(w / 0x80, 5, OrShifted32(result, w % 0x80, 28), rest);
    }
  }

  lemma TopRegroup(w: nat, result: nat, v: uint64)
    requires result < 0x1000_0000 && v == result + w * 0x1000_0000
    ensures w / 0x80 < 0x8_0000_0000
    ensures v % TWO_32 == result + w % 0x80 % 0x10 * 0x1000_0000
    ensures result + w % 0x80 % 0x10 * 0x1000_0000 >= 0x8000_0000 <==> w % 0x10 >= 8
    ensures w < 0x80 ==> (w / 0x10 % 8 == 0 <==> w < 0x10)
  {
    var q, r := w / 0x10, w % 0x10;
    assert w % 0x80 % 0x10 == r by { NibbleOf(w); }
    SplitAt32(q, result + r * 0x1000_0000);
    assert v == q * TWO_32 + (result + r * 0x1000_0000);
  }

  lemma NibbleOf(w: nat)
    ensures w % 0x80 % 0x10 == w % 0x10
  {
    AddMultiple(w / 0x80, w % 0x80);
  }

  lemma AddMultiple(q: nat, s: nat)
    ensures (0x80 * q + s) % 0x10 == s % 0x10
  {
    LowNibble(8 * q + s / 0x10, s % 0x10);
  }

  lemma LowNibble(k: nat, e: nat)
    requires e < 0x10
    ensures (0x10 * k + e) % 0x10 == e
  {
  }

  lemma SplitAt32(q: nat, low: uint32)
    ensures (q * TWO_32 + low) % TWO_32 == low
  {
  }

  lemma HighGroupsMeaning(v: uint64)
    requires Shr(v, 5) > 0
    ensures HighGroups(Shr(v, 5), 5) <==> Group(v, 9) == 1 && forall k | 5 <= k <= 8 :: Group(v, k) in {0, 0x7F}
  {
    var s5, s6, s7, s8, s9 := Shr(v, 5), Shr(v, 6), Shr(v, 7), Shr(v, 8), Shr(v, 9);
    ShrNine(v);
    assert s6 == s5 / 0x80 && s7 == s6 / 0x80 && s8 == s7 / 0x80 && s9 == s8 / 0x80;
    assert HighGroups(s9, 9) <==> s9 == 1;
    assert s8 >= 0x80 ==> (HighGroups(s8, 8) <==> Group(v, 8) in {0, 0x7F} && HighGroups(s9, 9));
    assert s7 >= 0x80 ==> (HighGroups(s7, 7) <==> Group(v, 7) in {0, 0x7F} && HighGroups(s8, 8));
    assert s6 >= 0x80 ==> (HighGroups(s6, 6) <==> Group(v, 6) in {0, 0x7F} && HighGroups(s7, 7));
    assert s5 >= 0x80 ==> (HighGroups(s5, 5) <==> Group(v, 5) in {0, 0x7F} && HighGroups(s6, 6));
    assert s8 < 0x80 ==> s9 == 0;
    assert s7 < 0x80 ==> s8 == 0;
    assert s6 < 0x80 ==> s7 == 0;
    assert s5 < 0x80 ==> s6 == 0;
  }

  lemma ShrNine(v: uint64)
    ensures Shr(v, 9) <= 1
  {
    assert Shr(v, 3) <= v / 0x20_0000 by { assert Shr(v, 1) == v / 0x80 && Shr(v, 2) == Shr(v, 1) / 0x80; }
    assert Shr(v, 3) < 0x800_0000_0000;
    assert Shr(v, 6) < 0x40_0000 by { assert Shr(v, 4) == Shr(v, 3) / 0x80 && Shr(v, 5) == Shr(v, 4) / 0x80; }
    assert Shr(v, 9) <= 1 by { assert Shr(v, 7) == Shr(v, 6) / 0x80 && Shr(v, 8) == Shr(v, 7) / 0x80; }
  }

  lemma LowAcceptsMeaning(v: uint64)
    requires v >= 0x80
    ensures LowAccepts(v / 0x80, 1) <==> Accepts32(v)
  {
    var s4 := Shr(v, 4);
    LowAcceptsFour(v);
    ShrFour(v);
    assert Shr(v, 5) == s4 / 0x80;
    if s4 >= 0x80 {
      HighGroupsMeaning(v);
      assert Group(v, 4) % 0x10 == s4 % 0x10 by { NibbleOf(s4); }
    } else {
      assert Group(v, 9) == 0 by { ShrOfZero(v, 5, 9); }
    }
  }

  lemma LowAcceptsFour(v: uint64)
    ensures v >= 0x80 ==> (LowAccepts(v / 0x80, 1) <==> LowAccepts(Shr(v, 4), 4))
  {
    hide HighGroups;
    var s1, s2, s3, s4 := Shr(v, 1), Shr(v, 2), Shr(v, 3), Shr(v, 4);
    assert Shr(v, 0) == v;
    assert s1 == v / 0x80 && s2 == s1 / 0x80 && s3 == s2 / 0x80 && s4 == s3 / 0x80;
    assert LowAccepts(s3, 3) <==> s3 < 0x80 || LowAccepts(s4, 4);
    assert LowAccepts(s2, 2) <==> s2 < 0x80 || LowAccepts(s3, 3);
    assert LowAccepts(s1, 1) <==> s1 < 0x80 || LowAccepts(s2, 2);
    assert s4 == 0 ==> LowAccepts(s4, 4);
  }

  lemma ShrFour(v: nat)
    ensures Shr(v, 4) == v / 0x1000_0000
  {
    assert Shr(v, 1) == v / 0x80;
    assert Shr(v, 2) == v / 0x4000;
    assert Shr(v, 3) == v / 0x20_0000;
  }

  lemma ShrOfZero(v: nat, i: nat, k: nat)
    requires i <= k && Shr(v, i) == 0
    ensures Shr(v, k) == 0
    decreases k
  {
    if i < k { ShrOfZero(v, i, k - 1); }
  }

  /** The 32-bit reader on the canonical encoding of any 64-bit value: it accepts exactly the values
    * of `Accepts32`, and then returns the low 32 bits and consumes what the 64-bit reader consumes. */
  lemma ReadVarint32Canonical(v: uint64, rest: seq<byte>)
    ensures ReadVarint32(EncVarint(v) + rest) == if Accepts32(v) then Ok(v % TWO_32, rest) else Malformed
  {
    hide ReadVarint32, Varint32Tail, EncVarint, LowAccepts;
    FirstByte(v, rest);
    if v < 0x80 {
      ModSmall(v);
    } else {
      TailLow(v / 0x80, 1, v % 0x80, v, rest);
      LowAcceptsMeaning(v);
    }
  }

  lemma FirstByte(v: nat, rest: seq<byte>)
    ensures ReadVarint32(EncVarint(v) + rest)
         == if v < 0x80 then Ok(v, rest) else Varint32Tail(EncVarint(v / 0x80) + rest, v % 0x80, 7)
  {
    var input := EncVarint(v) + rest;
    assert input[1..] == if v < 0x80 then rest else EncVarint(v / 0x80) + rest;
    if v >= 0x80 {
      assert input[0] == v % 0x80 + 0x80;
      assert input[0] % 0x80 == v % 0x80;
    }
  }

  /** In particular: every value below 2^32 and every sign-extended negative int32 is read back, and
    * a value below 2^63 is accepted only when it fits. */
  lemma ReadVarint32Promises(v: uint64)
    ensures v < TWO_32 ==> Accepts32(v)
    ensures v >= TWO_64 - 0x8000_0000 ==> Accepts32(v) && v % TWO_32 == v - (TWO_64 - TWO_32)
    ensures Accepts32(v) && v < 0x8000_0000_0000_0000 ==> v < TWO_32
  {
    if v >= TWO_64 - 0x8000_0000 {
      SignExtendedAccepted(v);
    } else if v < 0x8000_0000_0000_0000 {
      ShrChain(v);
    }
  }

  lemma ShrChain(v: nat)
    ensures Shr(v, 5) == Shr(v, 4) / 0x80 && Shr(v, 4) == v / 0x1000_0000
    ensures Shr(v, 6) == Shr(v, 5) / 0x80 && Shr(v, 7) == Shr(v, 6) / 0x80
    ensures Shr(v, 8) == Shr(v, 7) / 0x80 && Shr(v, 9) == Shr(v, 8) / 0x80
    ensures v < 0x8000_0000_0000_0000 ==> Shr(v, 9) == 0
  {
    ShrFour(v);
    if v < 0x8000_0000_0000_0000 {
      assert Shr(v, 4) < 0x8_0000_0000;
      assert Shr(v, 6) < 0x20_0000;
    }
  }

  lemma SignExtendedAccepted(v: uint64)
    requires v >= TWO_64 - 0x8000_0000
    ensures Accepts32(v) && v % TWO_32 == v - (TWO_64 - TWO_32)
  {
    hide Shr;
    ShrChain(v);
    assert 0xF_FFFF_FFF8 <= Shr(v, 4) <= 0xF_FFFF_FFFF;
    assert Shr(v, 5) == 0x1FFF_FFFF;
    assert Shr(v, 6) == 0x3F_FFFF;
    assert Shr(v, 7) == 0x7FFF;
    assert Shr(v, 8) == 0xFF;
    assert Shr(v, 9) == 1;
    LowNibble(0xFFFF_FFFF, Shr(v, 4) - 0xF_FFFF_FFF0);
    SplitAt32(0xFFFF_FFFF, v - (TWO_64 - TWO_32));
  }

  lemma ReadVarint32Inverts(v: uint32, rest: seq<byte>)
    ensures ReadVarint32(EncVarint(v) + rest) == Ok(v, rest)
  {
    assert Accepts32(v);
    ReadVarint32Canonical(v, rest);
    ModSmall(v);
  }

  /** Not every accepted value above 2^63 is a sign-extended int32: this one reads as 0x80000000. */
  lemma ReadVarint32Lossy()
    ensures var v: uint64 := 0x8000_0000_8000_0000;
            v < TWO_64 - 0x8000_0000 && ReadVarint32(EncVarint(v)) == Ok(0x8000_0000, [])
  {
    var v: uint64 := 0x8000_0000_8000_0000;
    assert Shr(v, 0) == v;
    ShrFour(v);
    assert Shr(v, 4) == 0x8_0000_0008;
    assert Shr(v, 5) == 0x1000_0000;
    assert Shr(v, 6) == 0x20_0000;
    assert Shr(v, 7) == 0x4000;
    assert Shr(v, 8) == 0x80;
    assert Shr(v, 9) == 0x1;
    assert Accepts32(v);
    ReadVarint32Canonical(v, []);
    assert EncVarint(v) + [] == EncVarint(v);
  }
}
