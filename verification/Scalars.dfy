/** The packable field types: how a number goes onto the wire and comes back. */
module Scalars {
  import opened Bits
  import opened Varints
  import opened Schema

  // ----- encoding -----

  /** The low n bytes of v, least significant first. */
  function LittleEndian(v: nat, n: nat): (bs: seq<byte>)
    ensures |bs| == n
  {
    if n == 0 then [] else [v % 0x100] + LittleEndian(v / 0x100, n - 1)
  }

  function FromLittleEndian(bs: seq<byte>): nat {
    if bs == [] then 0 else bs[0] + 0x100 * FromLittleEndian(bs[1..])
  }

  /** (value << 1) when not negative, ~(value << 1) otherwise, on 64 bits. */
  function ZigZag(n: int): uint64 {
    if n < 0 then TWO_64 - 1 - 2 * n % TWO_64 else 2 * n % TWO_64
  }

  function UnZigZag(v: uint64): int {
    if v % 2 == 1 then -1 - v / 2 else v / 2
  }

  function EncNumber(ltype: LType, n: int): (bs: seq<byte>)
    requires ltype.Packable()
    ensures |bs| >= 1
  {
    match ltype
    case BOOL => EncVarint(if n != 0 then 1 else 0)
    case VARINT | UVARINT => EncVarint(n % TWO_64)
    case SVARINT => EncVarint(ZigZag(n))
    case FIXED32 => LittleEndian(n % TWO_32, 4)
    case FIXED64 => LittleEndian(n % TWO_64, 8)
  }

  // ----- decoding -----

  /** (int64_t)v for size 8, (int32_t)v for every smaller size. */
  function SignedValue(v: uint64, size: nat): int {
    if size == 8 then (if v < 0x8000_0000_0000_0000 then v else v - TWO_64)
    else var low := v % TWO_32; if low < 0x8000_0000 then low else low - TWO_32
  }

  /** Assignment to a signed, respectively unsigned, integer of the given size. */
  function CastSigned(n: int, size: nat): int {
    (n + Half(size)) % (2 * Half(size)) - Half(size)
  }

  function CastUnsigned(n: int, size: nat): int {
    n % (2 * Half(size))
  }

  predicate IntegerSize(size: nat) {
    size == 1 || size == 2 || size == 4 || size == 8
  }

  function ReadFixed(input: seq<byte>, n: nat): (r: Outcome<nat>)
    ensures r.Ok? ==> |r.rest| + n == |input| && r.value == FromLittleEndian(input[..n])
  {
    if |input| < n then Truncated else Ok(FromLittleEndian(input[..n]), input[n..])
  }

  function ReadNumber(ltype: LType, size: nat, input: seq<byte>): (r: Outcome<int>)
    requires ltype.Packable()
    ensures r.Ok? ==> |r.rest| < |input|
  {
    match ltype
    case BOOL => (
      match ReadVarint32(input)
      case Ok(v, rest) => Ok(if v != 0 then 1 else 0, rest)
      case Truncated => Truncated
      case Malformed => Malformed)
    case VARINT => (
      match ReadVarint64(input)
      case Ok(v, rest) =>
        var n := SignedValue(v, size);
        if IntegerSize(size) && CastSigned(n, size) == n then Ok(n, rest) else Malformed
      case Truncated => Truncated
      case Malformed => Malformed)
    case UVARINT => (
      match ReadVarint64(input)
      case Ok(v, rest) => if IntegerSize(size) && CastUnsigned(v, size) == v then Ok(v, rest) else Malformed
      case Truncated => Truncated
      case Malformed => Malformed)
    case SVARINT => (
      match ReadVarint64(input)
      case Ok(v, rest) =>
        var n := UnZigZag(v);
        if IntegerSize(size) && CastSigned(n, size) == n then Ok(n, rest) else Malformed
      case Truncated => Truncated
      case Malformed => Malformed)
    case FIXED32 => ReadFixed(input, 4)
    case FIXED64 => ReadFixed(input, 8)
  }

  // ----- what the decoders accept -----

  lemma CastsKeepWhatFits(n: int, size: nat)
    requires IntegerSize(size)
    ensures CastSigned(n, size) == n <==> -Half(size) <= n < Half(size)
    ensures CastUnsigned(n, size) == n <==> 0 <= n < 2 * Half(size)
  {
  }

  /** On any canonical varint, a decoder accepts exactly what fits its field; fields of 32 bits or less
    * first take the low half of the varint as a signed number. */
  lemma IntegerDecodersAccept(size: nat, v: uint64, rest: seq<byte>)
    requires IntegerSize(size)
    ensures var n := SignedValue(v, size);
            ReadNumber(VARINT, size, EncVarint(v) + rest) ==
            if -Half(size) <= n < Half(size) then Ok(n, rest) else Malformed
    ensures ReadNumber(UVARINT, size, EncVarint(v) + rest)
         == if v < 2 * Half(size) then Ok(v, rest) else Malformed
    ensures var n := UnZigZag(v);
            ReadNumber(SVARINT, size, EncVarint(v) + rest) ==
            if -Half(size) <= n < Half(size) then Ok(n, rest) else Malformed
  {
    hide ReadVarint64, EncVarint, CastSigned, CastUnsigned;
    ReadVarint64Inverts(v, rest);
    CastsKeepWhatFits(SignedValue(v, size), size);
    CastsKeepWhatFits(UnZigZag(v), size);
    CastsKeepWhatFits(v, size);
  }

  lemma {:induction false} FromLittleEndianBound(bs: seq<byte>)
    ensures FromLittleEndian(bs) < Pow2(8 * |bs|)
  {
    if bs != [] {
      FromLittleEndianBound(bs[1..]);
      PowerOfByte(|bs| - 1);
    }
  }

  lemma PowerOfByte(n: nat)
    ensures Pow2(8 * (n + 1)) == 0x100 * Pow2(8 * n)
  {
    Doubling(8 * n);
    assert Pow2(8 * n + 8) == 2 * Pow2(8 * n + 7);
  }

  /** Whatever a decoder accepts fits the field it is stored in. */
  lemma ReadNumberValid(ltype: LType, size: nat, input: seq<byte>)
    requires ltype.Packable()
    ensures var r := ReadNumber(ltype, size, input); r.Ok? ==> ValidNumber(ltype, size, r.value)
  {
    hide ReadVarint32, ReadVarint64, CastSigned, CastUnsigned;
    var r := ReadNumber(ltype, size, input);
    if r.Ok? {
      match ltype
      case BOOL =>
      case VARINT | UVARINT | SVARINT => CastsKeepWhatFits(r.value, size);
      case FIXED32 =>
        Powers();
        FromLittleEndianBound(input[..4]);
      case FIXED64 =>
        Powers();
        FromLittleEndianBound(input[..8]);
    }
  }

  lemma ReadNumberExtends(ltype: LType, size: nat, a: seq<byte>, b: seq<byte>)
    requires ltype.Packable()
    ensures Extends(ReadNumber(ltype, size, a), ReadNumber(ltype, size, a + b), b)
  {
    hide ReadVarint32, ReadVarint64, CastSigned, CastUnsigned, SignedValue, UnZigZag, FromLittleEndian;
    ReadVarint32Extends(a, b);
    ReadVarint64Extends(a, b);
    if ltype.FIXED32? && |a| >= 4 {
      assert (a + b)[..4] == a[..4] && (a + b)[4..] == a[4..] + b;
    }
    if ltype.FIXED64? && |a| >= 8 {
      assert (a + b)[..8] == a[..8] && (a + b)[8..] == a[8..] + b;
    }
  }

  // ----- round trips -----

  lemma UnZigZagInverts(n: int)
    requires -0x8000_0000_0000_0000 <= n < 0x8000_0000_0000_0000
    ensures UnZigZag(ZigZag(n)) == n
  {
    if n < 0 {
      assert 2 * n % TWO_64 == 2 * n + TWO_64;
      assert ZigZag(n) == -1 - 2 * n;
    } else {
      assert 2 * n % TWO_64 == 2 * n;
    }
  }

  lemma SignedValueInverts(n: int, size: nat)
    requires IntegerSize(size) && -Half(size) <= n < Half(size)
    ensures SignedValue(n % TWO_64, size) == n
  {
    if n < 0 {
      assert n % TWO_64 == n + TWO_64;
      assert (n + TWO_64) == 0xFFFF_FFFF * TWO_32 + (n + TWO_32);
      if size != 8 {
        assert (n + TWO_64) % TWO_32 == n + TWO_32;
      }
    } else {
      assert n % TWO_64 == n;
      if size != 8 { assert n % TWO_32 == n; }
    }
  }

  lemma {:induction false} LittleEndianInverts(v: nat, n: nat)
    requires v < Pow2(8 * n)
    ensures FromLittleEndian(LittleEndian(v, n)) == v
  {
    if n != 0 {
      PowerOfByte(n - 1);
      LittleEndianInverts(v / 0x100, n - 1);
    }
  }

  /** Every packable type, at every width, reads back what was written. */
  lemma NumberRoundTrip(ltype: LType, size: nat, n: int, rest: seq<byte>)
    requires ltype.Packable() && ValidNumber(ltype, size, n)
    requires ltype in {VARINT, UVARINT, SVARINT} ==> IntegerSize(size)
    ensures ReadNumber(ltype, size, EncNumber(ltype, n) + rest) == Ok(n, rest)
  {
    hide ReadVarint32, ReadVarint64, EncVarint, CastSigned, CastUnsigned, LittleEndian, FromLittleEndian, ZigZag,
      UnZigZag, SignedValue;
    match ltype
    case BOOL => ReadVarint32Inverts(if n != 0 then 1 else 0, rest);
    case VARINT =>
      SignedValueInverts(n, size);
      IntegerDecodersAccept(size, n % TWO_64, rest);
    case UVARINT =>
      ModSmall(n);
      IntegerDecodersAccept(size, n, rest);
    case SVARINT =>
      UnZigZagInverts(n);
      IntegerDecodersAccept(size, ZigZag(n), rest);
    case FIXED32 =>
      ModSmall(n);
      FixedRoundTrip(n, 4, rest);
    case FIXED64 =>
      ModSmall(n);
      FixedRoundTrip(n, 8, rest);
  }

  lemma FixedRoundTrip(v: nat, n: nat, rest: seq<byte>)
    requires (n == 4 && v < TWO_32) || (n == 8 && v < TWO_64)
    ensures ReadFixed(LittleEndian(v, n) + rest, n) == Ok(v, rest)
  {
    hide LittleEndian, FromLittleEndian;
    Powers();
    LittleEndianInverts(v, n);
    var bs := LittleEndian(v, n);
    assert (bs + rest)[..n] == bs && (bs + rest)[n..] == rest;
  }
}
