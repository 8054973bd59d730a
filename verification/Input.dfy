/** Input streams over memory buffers (pb_istream_t) and the readers on them. */
module Input {
  import opened Bits
  import opened Varints
  import opened Scalars
  import opened Encode
  import opened Decode

  /** The next bytesLeft bytes of buf from state on are still to be read. */
  class IStream {
    const buf: seq<byte>
    var state: nat
    var bytesLeft: nat

    ghost predicate Valid()
      reads this
    {
      state + bytesLeft <= |buf|
    }

    ghost function Rest(): seq<byte>
      reads this
      requires Valid()
    {
      buf[state..state + bytesLeft]
    }

    /** Where the stream ends; reading does not move it. */
    ghost function End(): nat
      reads this
    {
      state + bytesLeft
    }

    constructor (buf: seq<byte>, state: nat, bytesLeft: nat)
      requires state + bytesLeft <= |buf|
      ensures Valid() && this.buf == buf && this.state == state && this.bytesLeft == bytesLeft
    {
      this.buf := buf;
      this.state := state;
      this.bytesLeft := bytesLeft;
    }

    /** pb_read: into dest, or without a destination just past the bytes. */
    method Read(dest: array?<byte>, count: nat) returns (ok: bool)
      requires Valid() && (dest != null ==> count <= dest.Length)
      modifies this, if dest == null then {} else {dest}
      ensures Valid() && End() == old(End())
      ensures ok <==> count <= old(bytesLeft)
      ensures ok ==> Rest() == old(Rest())[count..]
      ensures ok && dest != null ==>
                dest[..count] == old(Rest())[..count] && dest[count..] == old(dest[count..])
      ensures !ok ==> state == old(state) && (dest != null ==> dest[..] == old(dest[..]))
    {
      if count == 0 {
        return true;
      }
      if bytesLeft < count {
        return false;
      }
      BufRead(dest, count);
      bytesLeft := bytesLeft - count;
      ok := true;
    }

    /** buf_read */
    method BufRead(dest: array?<byte>, count: nat)
      requires Valid() && count <= bytesLeft && (dest != null ==> count <= dest.Length)
      modifies this`state, if dest == null then {} else {dest}
      ensures state == old(state) + count
      ensures dest != null ==> dest[..count] == old(Rest())[..count] && dest[count..] == old(dest[count..])
    {
      var source := state;
      state := state + count;
      if dest != null {
        var i := 0;
        while i < count
          invariant 0 <= i <= count && state == old(state) + count
          invariant dest[..i] == buf[source..source + i]
          invariant dest[count..] == old(dest[count..])
        {
          dest[i] := buf[source + i];
          i := i + 1;
        }
      }
    }

    /** pb_readbyte */
    method ReadByte() returns (ok: bool, b: byte)
      requires Valid()
      modifies this
      ensures Valid() && End() == old(End())
      ensures ok <==> old(bytesLeft) > 0
      ensures ok ==> b == old(Rest())[0] && Rest() == old(Rest())[1..]
      ensures !ok ==> bytesLeft == 0
    {
      b := 0;
      if bytesLeft == 0 {
        return false, b;
      }
      b := buf[state];
      state := state + 1;
      bytesLeft := bytesLeft - 1;
      ok := true;
    }

    /** pb_decode_varint32_eof */
    method DecodeVarint32Eof() returns (ok: bool, dest: uint32, eof: bool)
      requires Valid()
      modifies this
      ensures Valid() && End() == old(End())
      ensures eof <==> old(bytesLeft) == 0
      ensures ok <==> ReadVarint32(old(Rest())).Ok?
      ensures ok ==> ReadVarint32(old(Rest())) == Ok(dest, Rest())
    {
      dest, eof := 0, false;
      ghost var input := Rest();
      var more, b := ReadByte();
      if !more {
        if bytesLeft == 0 {
          eof := true;
        }
        return false, dest, eof;
      }
      var result: uint32;
      if b < 0x80 {
        result := b;
      } else {
        var bitpos: byte := 7;
        result := b % 0x80;
        while true
          invariant Valid() && End() == old(End()) && !eof
          invariant ReadVarint32(input) == Varint32Tail(Rest(), result, bitpos)
          decreases bytesLeft
        {
          more, b := ReadByte();
          if !more {
            return false, dest, eof;
          }
          if bitpos >= 32 {
            var signExtension: byte := if bitpos < 63 then 0xFF else 0x01;
            if b % 0x80 != 0 && (result < 0x8000_0000 || b != signExtension) {
              return false, dest, eof;
            }
          } else {
            result := OrShifted32(result, b % 0x80, bitpos);
          }
          bitpos := (bitpos + 7) % 256;
          if b < 0x80 {
            break;
          }
        }
        if bitpos == 35 && b / 0x10 % 8 != 0 {
          return false, dest, eof;
        }
      }
      return true, result, eof;
    }

    method DecodeVarint32() returns (ok: bool, dest: uint32)
      requires Valid()
      modifies this
      ensures Valid() && End() == old(End())
      ensures ok <==> ReadVarint32(old(Rest())).Ok?
      ensures ok ==> ReadVarint32(old(Rest())) == Ok(dest, Rest())
    {
      var eof;
      ok, dest, eof := DecodeVarint32Eof();
    }

    /** pb_decode_varint */
    method DecodeVarint() returns (ok: bool, dest: uint64)
      requires Valid()
      modifies this
      ensures Valid() && End() == old(End())
      ensures ok <==> ReadVarint64(old(Rest())).Ok?
      ensures ok ==> ReadVarint64(old(Rest())) == Ok(dest, Rest())
    {
      hide Collected, OrShifted64, Payload, Span, ReadVarint64;
      dest := 0;
      ghost var input := Rest();
      NothingCollected();
      assert input[..0] == [];
      var bitpos: byte := 0;
      var result: uint64 := 0;
      ghost var k := 0;
      while true
        invariant Valid() && End() == old(End())
        invariant k <= 10 && k <= |input| && bitpos == 7 * k && Rest() == input[k..]
        invariant forall j | 0 <= j < k :: input[j] >= 0x80
        invariant Collected(input[..k], result)
        decreases bytesLeft
      {
        if bitpos >= 64 {
          NoVarint(input, k);
          return false, dest;
        }
        var more, b := ReadByte();
        if !more {
          NoVarint(input, k);
          return false, dest;
        }
        CollectGroup(input[..k], result, b);
        assert input[..k] + [b] == input[..k + 1];
        result := OrShifted64(result, b % 0x80, bitpos);
        bitpos := (bitpos + 7) % 256;
        k := k + 1;
        if b < 0x80 {
          VarintFound(input, k - 1, result);
          return true, result;
        }
      }
    }

    /** pb_decode_svarint */
    method DecodeSvarint() returns (ok: bool, dest: int)
      requires Valid()
      modifies this
      ensures Valid() && End() == old(End())
      ensures ok <==> ReadVarint64(old(Rest())).Ok?
      ensures ok ==> ReadVarint64(old(Rest())).rest == Rest() && dest == UnZigZag(ReadVarint64(old(Rest())).value)
    {
      var value;
      dest := 0;
      ok, value := DecodeVarint();
      if !ok {
        return;
      }
      if value % 2 == 1 {
        // (int64_t) ~(value >> 1)
        dest := (TWO_64 - 1 - value / 2) - TWO_64;
      } else {
        dest := value / 2;
      }
    }

    /** pb_decode_fixed32 */
    method DecodeFixed32() returns (ok: bool, dest: nat)
      requires Valid()
      modifies this
      ensures Valid() && End() == old(End())
      ensures ok <==> ReadFixed(old(Rest()), 4).Ok?
      ensures ok ==> ReadFixed(old(Rest()), 4) == Ok(dest, Rest())
    {
      var bytes := new byte[4];
      dest := 0;
      ok := Read(bytes, 4);
      if ok {
        dest := (bytes[0] as int) + (bytes[1] as int) * 0x100
                + (bytes[2] as int) * 0x1_0000 + (bytes[3] as int) * 0x100_0000;
        assert bytes[..4] == bytes[..];
        FourBytes(bytes[..]);
      }
    }

    /** pb_decode_fixed64 */
    method DecodeFixed64() returns (ok: bool, dest: nat)
      requires Valid()
      modifies this
      ensures Valid() && End() == old(End())
      ensures ok <==> ReadFixed(old(Rest()), 8).Ok?
      ensures ok ==> ReadFixed(old(Rest()), 8) == Ok(dest, Rest())
    {
      var bytes := new byte[8];
      dest := 0;
      ok := Read(bytes, 8);
      if ok {
        var low := (bytes[0] as int) + (bytes[1] as int) * 0x100
                   + (bytes[2] as int) * 0x1_0000 + (bytes[3] as int) * 0x100_0000;
        var high := (bytes[4] as int) + (bytes[5] as int) * 0x100
                    + (bytes[6] as int) * 0x1_0000 + (bytes[7] as int) * 0x100_0000;
        dest := low + high * TWO_32;
        assert bytes[..8] == bytes[..];
        EightBytes(bytes[..]);
      }
    }

    /** pb_decode_tag */
    method DecodeTag() returns (ok: bool, wireType: nat, tag: nat, eof: bool)
      requires Valid()
      modifies this
      ensures Valid() && End() == old(End())
      ensures match ReadTag(old(Rest()))
              case Ok(Tag(number, wt), rest) => ok && tag == number && wireType == wt && Rest() == rest
              case Ok(End, rest) => !ok && eof && Rest() == rest
              case _ => !ok && (eof <==> old(bytesLeft) == 0)
    {
      wireType, tag := 0, 0;
      var temp;
      ok, temp, eof := DecodeVarint32Eof();
      if !ok {
        return;
      }
      if temp == 0 {
        eof := true;
        return false, wireType, tag, eof;
      }
      tag := temp / 8;
      wireType := temp % 8;
      ok := true;
    }

    /** pb_skip_varint */
    method SkipVarint() returns (ok: bool)
      requires Valid()
      modifies this
      ensures Valid() && End() == old(End())
      ensures ok <==> Decode.SkipVarint(old(Rest())).Ok?
      ensures ok ==> Rest() == Decode.SkipVarint(old(Rest())).rest
    {
      ghost var input := Rest();
      var b := new byte[1];
      ghost var k := 0;
      while true
        invariant Valid() && End() == old(End()) && fresh(b) && b.Length == 1
        invariant k <= |input| && Rest() == input[k..]
        invariant forall j | 0 <= j < k :: input[j] >= 0x80
        decreases bytesLeft
      {
        SpanAtLeast(input, k);
        ok := Read(b, 1);
        if !ok {
          return;
        }
        assert b[0] == b[..1][0] == input[k];
        k := k + 1;
        if b[0] < 0x80 {
          SpanExactly(input, k - 1);
          return;
        }
      }
    }

    /** pb_skip_string */
    method SkipString() returns (ok: bool)
      requires Valid()
      modifies this
      ensures Valid() && End() == old(End())
      ensures ok <==> SkipDelimited(old(Rest())).Ok?
      ensures ok ==> Rest() == SkipDelimited(old(Rest())).rest
    {
      var length;
      ok, length := DecodeVarint32();
      if !ok {
        return;
      }
      ok := Read(null, length);
    }

    /** pb_skip_field */
    method SkipField(wireType: nat) returns (ok: bool)
      requires Valid()
      modifies this
      ensures Valid() && End() == old(End())
      ensures ok <==> Decode.SkipField(wireType, old(Rest())).Ok?
      ensures ok ==> Rest() == Decode.SkipField(wireType, old(Rest())).rest
    {
      if wireType == WT_VARINT {
        ok := SkipVarint();
      } else if wireType == WT_64BIT {
        ok := Read(null, 8);
      } else if wireType == WT_STRING {
        ok := SkipString();
      } else if wireType == WT_32BIT {
        ok := Read(null, 4);
      } else {
        ok := false;
      }
    }

    /** pb_make_string_substream: the parent gives up the body at once, but advances only on closing. */
    method MakeStringSubstream() returns (ok: bool, substream: IStream)
      requires Valid()
      modifies this
      ensures Valid() && fresh(substream) && substream.Valid() && substream.buf == buf
      ensures End() <= old(End())
      ensures ok <==> ReadDelimited(old(Rest())).Ok?
      ensures ok ==> substream.End() + bytesLeft == old(End()) <= |buf|
      ensures ok ==> substream.Rest() == ReadDelimited(old(Rest())).value
      ensures ok ==> buf[substream.End()..substream.End() + bytesLeft] == ReadDelimited(old(Rest())).rest
    {
      hide ReadVarint32;
      var size;
      ok, size := DecodeVarint32();
      substream := new IStream(buf, state, bytesLeft);
      if !ok {
        return;
      }
      ghost var body := Rest();
      if substream.bytesLeft < size {
        return false, substream;
      }
      SplitBody(buf, state, bytesLeft, size);
      substream.bytesLeft := size;
      bytesLeft := bytesLeft - size;
      ok := true;
    }

    /** pb_close_string_substream: whatever of the body is left is skipped. */
    method CloseStringSubstream(substream: IStream) returns (ok: bool)
      requires substream != this && substream.Valid() && substream.buf == buf && substream.End() + bytesLeft <= |buf|
      modifies this, substream
      ensures ok && Valid() && bytesLeft == old(bytesLeft)
      ensures state == old(substream.End())
    {
      if substream.bytesLeft != 0 {
        var skipped := substream.Read(null, substream.bytesLeft);
        if !skipped {
          return false;
        }
      }
      state := substream.state;
      ok := true;
    }
  }

  // ----- the 64-bit loop -----

  /** result | (uint64_t)bits << bitpos */
  function OrShifted64(result: uint64, bits: nat, bitpos: nat): uint64 {
    Powers();
    OrBound(result, bits * Pow2(bitpos) % TWO_64, 64);
    Or(result, bits * Pow2(bitpos) % TWO_64)
  }

  /** The loop has put together the bytes read so far. */
  ghost predicate Collected(bs: seq<byte>, result: uint64) {
    result == Payload(bs) % TWO_64 && (|bs| <= 9 ==> result == Payload(bs) < Pow2(7 * |bs|))
  }

  lemma NothingCollected()
    ensures Collected([], 0)
  {
  }

  /** Ten bytes without an end, or the end of the input before the end of the varint. */
  lemma NoVarint(input: seq<byte>, k: nat)
    requires k <= |input| && (k >= 10 || k == |input|) && forall j | 0 <= j < k :: input[j] >= 0x80
    ensures !ReadVarint64(input).Ok?
  {
    SpanAtLeast(input, k);
  }

  lemma VarintFound(input: seq<byte>, k: nat, result: uint64)
    requires k < |input| && k < 10 && input[k] < 0x80 && forall j | 0 <= j < k :: input[j] >= 0x80
    requires Collected(input[..k + 1], result)
    ensures ReadVarint64(input) == Ok(result, input[k + 1..])
  {
    SpanExactly(input, k);
  }

  lemma CollectGroup(bs: seq<byte>, result: uint64, b: byte)
    requires |bs| <= 9 && Collected(bs, result)
    ensures Collected(bs + [b], OrShifted64(result, b % 0x80, 7 * |bs|))
  {
    hide OrShifted64, Pow2, Payload;
    var k, g := |bs|, b % 0x80;
    PayloadAppend(bs, b);
    if k < 9 {
      OrLow(result, g, k);
    } else {
      assert Pow2(63) == 0x8000_0000_0000_0000 by { Powers(); }
      OrHigh(result, g);
      HighBit(result, g);
    }
  }

  lemma OrLow(result: uint64, g: nat, k: nat)
    requires k < 9 && g < 0x80 && result < Pow2(7 * k)
    ensures OrShifted64(result, g, 7 * k) == result + g * Pow2(7 * k) < Pow2(7 * (k + 1))
    ensures (result + g * Pow2(7 * k)) % TWO_64 == result + g * Pow2(7 * k)
  {
    NextGroup(7 * k);
    hide Pow2, Or;
    OrBelow(result, g, 7 * k, Pow2(7 * k));
  }

  lemma NextGroup(n: nat)
    requires n <= 56
    ensures Pow2(n + 7) == 0x80 * Pow2(n) < TWO_64
  {
    Doubling(n);
    PowersGrow(n + 7, 63);
    Powers();
    hide Pow2;
  }

  lemma OrBelow(result: uint64, g: nat, n: nat, p: nat)
    requires g < 0x80 && p == Pow2(n) && result < p && 0x80 * p < TWO_64
    ensures OrShifted64(result, g, n) == result + g * p < 0x80 * p
    ensures (result + g * p) % TWO_64 == result + g * p
  {
    hide Pow2, Or;
    var x := g * p;
    TimesAtMost(g, p);
    OrDisjoint(result, g, n);
    ModSmall(x);
    ModSmall(result + x);
  }

  lemma TimesAtMost(g: nat, p: nat)
    requires g < 0x80
    ensures 0 <= g * p <= 0x7F * p
  {
  }

  lemma OrHigh(result: uint64, g: nat)
    requires g < 0x80 && result < Pow2(63)
    ensures OrShifted64(result, g, 63) == result + g % 2 * 0x8000_0000_0000_0000
  {
    Powers();
    HighBit(0, g);
    OrDisjoint(result, g % 2, 63);
  }

  lemma HighBit(result: nat, g: nat)
    requires result < 0x8000_0000_0000_0000
    ensures (result + g * 0x8000_0000_0000_0000) % TWO_64 == result + g % 2 * 0x8000_0000_0000_0000
  {
    assert g == 2 * (g / 2) + g % 2;
    SplitAt64(g / 2, result + g % 2 * 0x8000_0000_0000_0000);
  }

  lemma SplitAt64(q: nat, low: uint64)
    ensures (q * TWO_64 + low) % TWO_64 == low
  {
  }

  lemma {:induction false} PayloadAppend(bs: seq<byte>, b: byte)
    ensures Payload(bs + [b]) == Payload(bs) + b % 0x80 * Pow2(7 * |bs|)
  {
    if bs == [] {
      assert [b][1..] == [];
    } else {
      assert (bs + [b])[1..] == bs[1..] + [b];
      PayloadAppend(bs[1..], b);
      Doubling(7 * |bs[1..]|);
      var p := Pow2(7 * |bs[1..]|);
      assert 0x80 * (Payload(bs[1..]) + b % 0x80 * p) == 0x80 * Payload(bs[1..]) + b % 0x80 * (0x80 * p);
    }
  }

  lemma {:induction false} SpanAtLeast(input: seq<byte>, k: nat)
    requires k <= |input| && forall j | 0 <= j < k :: input[j] >= 0x80
    ensures Span(input) >= k
    decreases k
  {
    if k > 0 {
      SpanAtLeast(input[1..], k - 1);
    }
  }

  lemma {:induction false} SpanExactly(input: seq<byte>, k: nat)
    requires k < |input| && input[k] < 0x80 && forall j | 0 <= j < k :: input[j] >= 0x80
    ensures Span(input) == k
    decreases k
  {
    if k > 0 {
      SpanExactly(input[1..], k - 1);
    }
  }

  lemma FourBytes(bs: seq<byte>)
    requires |bs| == 4
    ensures FromLittleEndian(bs)
         == (bs[0] as int) + (bs[1] as int) * 0x100 + (bs[2] as int) * 0x1_0000 + (bs[3] as int) * 0x100_0000
  {
    assert bs[1..][1..] == bs[2..] && bs[2..][1..] == bs[3..] && bs[3..][1..] == [];
    assert FromLittleEndian(bs[3..]) == bs[3] + 0x100 * FromLittleEndian(bs[3..][1..]);
    assert FromLittleEndian(bs[2..]) == bs[2] + 0x100 * FromLittleEndian(bs[3..]);
    assert FromLittleEndian(bs[1..]) == bs[1] + 0x100 * FromLittleEndian(bs[2..]);
  }

  lemma EightBytes(bs: seq<byte>)
    requires |bs| == 8
    ensures FromLittleEndian(bs)
         == ((bs[0] as int) + (bs[1] as int) * 0x100 + (bs[2] as int) * 0x1_0000 + (bs[3] as int) * 0x100_0000)
            + ((bs[4] as int) + (bs[5] as int) * 0x100 + (bs[6] as int) * 0x1_0000 + (bs[7] as int) * 0x100_0000)
              * TWO_32
  {
    FourBytes(bs[4..]);
    assert bs[1..][1..] == bs[2..] && bs[2..][1..] == bs[3..] && bs[3..][1..] == bs[4..];
    assert FromLittleEndian(bs[3..]) == bs[3] + 0x100 * FromLittleEndian(bs[4..]);
    assert FromLittleEndian(bs[2..]) == bs[2] + 0x100 * FromLittleEndian(bs[3..]);
    assert FromLittleEndian(bs[1..]) == bs[1] + 0x100 * FromLittleEndian(bs[2..]);
  }

  lemma SplitBody(buf: seq<byte>, state: nat, left: nat, size: nat)
    requires size <= left && state + left <= |buf|
    ensures buf[state..state + size] == buf[state..state + left][..size]
    ensures buf[state + size..state + left] == buf[state..state + left][size..]
  {
  }
}
