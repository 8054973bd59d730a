/** pb_encode as it runs: methods that write to a stream, or only count, and are proved against the
  * functions of module Encode. */
module Encoder {
  import opened Varints
  import opened Schema
  import opened Scalars
  import opened Encode
  import opened Decode
  import opened Iterator
  import opened Readback
  import opened Decoder
  import opened Output

  // ----- numbers -----

  method EncodeVarint(stream: OStream, value: uint64) returns (ok: bool)
    requires stream.Valid()
    modifies stream, stream.buf
    ensures stream.Valid()
    ensures Ran(stream.writing, stream.maxSize, old(stream.Now()), stream.Now(), ok, true, EncVarint(value))
  {
    hide Ran;
    if value <= 0x7F {
      ok := stream.Write([value], 1);
      return;
    }
    var buffer := new byte[10];
    var i := FillVarint(buffer, value);
    ok := stream.Write(buffer[..i], i);
  }

  /** The loop of pb_encode_varint, which never needs more than its ten bytes. */
  method FillVarint(buffer: array<byte>, value: uint64) returns (i: nat)
    requires buffer.Length == 10 && value > 0x7F
    modifies buffer
    ensures i <= 10 && buffer[..i] == EncVarint(value)
  {
    EncVarintFits(value);
    hide EncVarint;
    i := 0;
    var rest: uint64 := value;
    while rest != 0
      invariant 0 <= i <= 10
      invariant rest != 0 ==> EncVarint(value) == buffer[..i] + EncVarint(rest)
      invariant rest == 0 ==> i > 0 && buffer[i - 1] >= 0x80
      invariant rest == 0 ==> EncVarint(value) == buffer[..i - 1] + [buffer[i - 1] - 0x80]
      decreases rest
    {
      EncVarintStep(rest);
      ghost var done := buffer[..i];
      buffer[i] := rest % 0x80 + 0x80;
      assert buffer[..i] == done && buffer[..i + 1] == done + [rest % 0x80 + 0x80];
      rest := rest / 0x80;
      i := i + 1;
    }
    ghost var done := buffer[..i - 1];
    buffer[i - 1] := buffer[i - 1] - 0x80;
    assert buffer[..i - 1] == done && buffer[..i] == done + [buffer[i - 1]];
  }

  lemma EncVarintStep(v: nat)
    ensures |EncVarint(v)| >= 1
    ensures v / 0x80 == 0 ==> EncVarint(v) == [v] && v % 0x80 == v
    ensures v / 0x80 != 0 ==> EncVarint(v) == [v % 0x80 + 0x80] + EncVarint(v / 0x80)
  {
  }

  method EncodeSvarint(stream: OStream, value: int) returns (ok: bool)
    requires stream.Valid()
    modifies stream, stream.buf
    ensures stream.Valid()
    ensures Ran(stream.writing, stream.maxSize, old(stream.Now()), stream.Now(), ok, true, EncVarint(ZigZag(value)))
  {
    var zigzagged: uint64;
    if value < 0 {
      // ~((uint64_t)value << 1)
      zigzagged := TWO_64 - 1 - 2 * value % TWO_64;
    } else {
      zigzagged := 2 * value % TWO_64;
    }
    ok := EncodeVarint(stream, zigzagged);
  }

  method EncodeFixed32(stream: OStream, val: uint32) returns (ok: bool)
    requires stream.Valid()
    modifies stream, stream.buf
    ensures stream.Valid()
    ensures Ran(stream.writing, stream.maxSize, old(stream.Now()), stream.Now(), ok, true, LittleEndian(val, 4))
  {
    hide Ran;
    var bytes := new byte[4];
    bytes[0] := val % 0x100;
    bytes[1] := val / 0x100 % 0x100;
    bytes[2] := val / 0x1_0000 % 0x100;
    bytes[3] := val / 0x100_0000 % 0x100;
    LittleEndianBytes(val);
    assert bytes[..] == [val % 0x100, val / 0x100 % 0x100, val / 0x1_0000 % 0x100, val / 0x100_0000 % 0x100];
    ok := stream.Write(bytes[..], 4);
  }

  method EncodeFixed64(stream: OStream, val: uint64) returns (ok: bool)
    requires stream.Valid()
    modifies stream, stream.buf
    ensures stream.Valid()
    ensures Ran(stream.writing, stream.maxSize, old(stream.Now()), stream.Now(), ok, true, LittleEndian(val, 8))
  {
    hide Ran;
    var bytes := new byte[8];
    bytes[0] := val % 0x100;
    bytes[1] := val / 0x100 % 0x100;
    bytes[2] := val / 0x1_0000 % 0x100;
    bytes[3] := val / 0x100_0000 % 0x100;
    bytes[4] := val / 0x1_0000_0000 % 0x100;
    bytes[5] := val / 0x100_0000_0000 % 0x100;
    bytes[6] := val / 0x1_0000_0000_0000 % 0x100;
    bytes[7] := val / 0x100_0000_0000_0000 % 0x100;
    EightLittleEndianBytes(val);
    hide LittleEndian;
    assert bytes[..] == LittleEndian(val, 8);
    ok := stream.Write(bytes[..], 8);
  }

  lemma EightLittleEndianBytes(v: nat)
    ensures LittleEndian(v, 8)
         == [v % 0x100, v / 0x100 % 0x100, v / 0x1_0000 % 0x100, v / 0x100_0000 % 0x100,
             v / 0x1_0000_0000 % 0x100, v / 0x100_0000_0000 % 0x100, v / 0x1_0000_0000_0000 % 0x100,
             v / 0x100_0000_0000_0000 % 0x100]
  {
    LittleEndianHalves(v);
    LittleEndianBytes(v);
    LittleEndianBytes(v / TWO_32);
    HighQuotients(v);
  }

  lemma HighQuotients(v: nat)
    ensures v / TWO_32 / 0x100 == v / 0x100_0000_0000
    ensures v / TWO_32 / 0x1_0000 == v / 0x1_0000_0000_0000
    ensures v / TWO_32 / 0x100_0000 == v / 0x100_0000_0000_0000
  {
  }

  lemma LittleEndianHalves(v: nat)
    ensures LittleEndian(v, 8) == LittleEndian(v, 4) + LittleEndian(v / TWO_32, 4)
  {
    var v1, v2, v3 := v / 0x100, v / 0x1_0000, v / 0x100_0000;
    assert v1 / 0x100 == v2 && v2 / 0x100 == v3 && v3 / 0x100 == v / TWO_32;
    LittleEndianBytes(v);
    assert LittleEndian(v3, 5) == [v3 % 0x100] + LittleEndian(v / TWO_32, 4);
    assert LittleEndian(v2, 6) == [v2 % 0x100] + LittleEndian(v3, 5);
    assert LittleEndian(v1, 7) == [v1 % 0x100] + LittleEndian(v2, 6);
    assert LittleEndian(v, 8) == [v % 0x100] + LittleEndian(v1, 7);
  }

  lemma LittleEndianBytes(v: nat)
    ensures LittleEndian(v, 4) == [v % 0x100, v / 0x100 % 0x100, v / 0x1_0000 % 0x100, v / 0x100_0000 % 0x100]
  {
    var v1, v2, v3 := v / 0x100, v / 0x1_0000, v / 0x100_0000;
    assert v1 / 0x100 == v2 && v2 / 0x100 == v3;
    assert LittleEndian(v3, 1) == [v3 % 0x100] + LittleEndian(v3 / 0x100, 0);
    assert LittleEndian(v2, 2) == [v2 % 0x100] + LittleEndian(v3, 1);
    assert LittleEndian(v1, 3) == [v1 % 0x100] + LittleEndian(v2, 2);
  }

  // ----- tags and strings -----

  method EncodeTag(stream: OStream, wireType: nat, fieldNumber: nat) returns (ok: bool)
    requires stream.Valid()
    modifies stream, stream.buf
    ensures stream.Valid()
    ensures Ran(stream.writing, stream.maxSize, old(stream.Now()), stream.Now(), ok,
                true, EncTag(wireType, fieldNumber))
  {
    ok := EncodeVarint(stream, (fieldNumber * 8 + wireType) % TWO_64);
  }

  method EncodeTagForField(stream: OStream, f: Field) returns (ok: bool)
    requires stream.Valid()
    modifies stream, stream.buf
    ensures stream.Valid()
    ensures Ran(stream.writing, stream.maxSize, old(stream.Now()), stream.Now(), ok, true, EncTag(WireType(f.ltype),
          f.tag))
  {
    var wireType;
    match f.ltype {
      case BOOL | VARINT | UVARINT | SVARINT => wireType := WT_VARINT;
      case FIXED32 => wireType := WT_32BIT;
      case FIXED64 => wireType := WT_64BIT;
      case BYTES | STRING | SUBMESSAGE | FIXED_LENGTH_BYTES => wireType := WT_STRING;
    }
    ok := EncodeTag(stream, wireType, f.tag);
  }

  method EncodeString(stream: OStream, bs: seq<byte>) returns (ok: bool)
    requires stream.Valid() && |bs| < TWO_64
    modifies stream, stream.buf
    ensures stream.Valid()
    ensures Ran(stream.writing, stream.maxSize, old(stream.Now()), stream.Now(), ok, true, EncDelimited(bs))
  {
    hide EncVarint, Ran;
    ghost var start := stream.Now();
    ok := EncodeVarint(stream, |bs|);
    ghost var middle := stream.Now();
    if !ok {
      RanShort(stream.writing, stream.maxSize, start, middle, true, true, EncVarint(|bs|), bs);
      return;
    }
    ok := stream.Write(bs, |bs|);
    RanBoth(stream.writing, stream.maxSize, start, middle, stream.Now(), ok, true, true, EncVarint(|bs|), bs);
  }

  // ----- the zero check -----

  /** pb_check_proto3_default_value */
  method CheckProto3DefaultValue(f: Field, c: Cell) returns (zero: bool)
    requires WellFormedField(f) && TypedCell(f, c)
    ensures zero <==> IsDefault(f, c)
    ensures zero <==> !SomethingInCell(f, c)
    decreases c
  {
    DefaultIsNothing(f, c);
    hide SomethingInCell;
    if f.htype.REQUIRED? {
      return false;
    } else if f.htype.REPEATED? {
      return f.sizeOffset != 0 && |c.items| == 0;
    } else if f.htype.ONEOF? {
      return c.NoneOf?;
    } else if f.sizeOffset != 0 {
      return !c.has;
    }
    match f.ltype
    case BYTES => zero := |c.value.bs| == 0;
    case STRING => zero := c.value.bs == [] || c.value.bs[0] == 0;
    case FIXED_LENGTH_BYTES => zero := f.dataSize == 0;
    case SUBMESSAGE => zero := CheckAllDefault(f.ptr.fields, c.value.cells);
    case _ => zero := c.value.n == 0;
  }

  /** The loop over the fields of a submessage in pb_check_proto3_default_value. */
  method CheckAllDefault(fields: seq<Field>, cells: seq<Cell>) returns (zero: bool)
    requires WellFormed(fields) && Typed(fields, cells)
    ensures zero <==> AllDefault(fields, cells)
    decreases cells
  {
    NonzeroTags(fields);
    assert |cells| == |fields| by { TypedCount(fields, cells); }
    DefaultUpToGrows(fields, cells, 0);
    hide WellFormed, WellFormedField, Typed, TypedCell, IsDefault, AllDefault, DefaultUpTo, Home, DataOffset,
      SizeOffset, RequiredBefore;
    var iter := new FieldIter(fields);
    var nonempty := iter.Begin();
    if nonempty {
      while true
        invariant fresh(iter) && iter.Valid() && iter.start == fields && iter.pos < |fields|
        invariant DefaultUpTo(fields, cells, iter.pos)
        decreases |fields| - iter.pos
      {
        TypedFacts(fields, cells, iter.pos);
        DefaultUpToGrows(fields, cells, iter.pos);
        var isDefault := CheckProto3DefaultValue(iter.Pos(), cells[Home(fields, iter.pos)]);
        if !isDefault {
          return false;
        }
        var more := iter.Next();
        if !more {
          break;
        }
      }
    }
    zero := true;
  }

  predicate DefaultUpTo(fields: seq<Field>, cells: seq<Cell>, n: nat)
    requires n <= |fields| == |cells|
  {
    forall j | 0 <= j < n :: IsDefault(fields[j], cells[Home(fields, j)])
  }

  lemma DefaultUpToGrows(fields: seq<Field>, cells: seq<Cell>, n: nat)
    requires n <= |fields| == |cells|
    ensures DefaultUpTo(fields, cells, 0)
    ensures DefaultUpTo(fields, cells, |fields|) <==> AllDefault(fields, cells)
    ensures n < |fields| ==>
              (DefaultUpTo(fields, cells, n + 1) <==>
                 DefaultUpTo(fields, cells, n) && IsDefault(fields[n], cells[Home(fields, n)]))
    ensures n < |fields| && !IsDefault(fields[n], cells[Home(fields, n)]) ==> !AllDefault(fields, cells)
  {
    hide IsDefault, Home;
  }

  lemma TypedFacts(fields: seq<Field>, cells: seq<Cell>, i: nat)
    requires WellFormed(fields) && Typed(fields, cells) && i < |fields|
    ensures WellFormedField(fields[i]) && |cells| == |fields| && TypedCell(fields[i], cells[Home(fields, i)])
  {
  }

  // ----- values -----

  /** The packable entries of PB_ENCODERS. */
  method EncodeNumber(stream: OStream, f: Field, n: int) returns (ok: bool)
    requires stream.Valid() && f.ltype.Packable()
    modifies stream, stream.buf
    ensures stream.Valid()
    ensures Ran(stream.writing, stream.maxSize, old(stream.Now()), stream.Now(), ok, EncodableValue(f, Number(n)),
          EncNumber(f.ltype, n))
  {
    hide Ran, EncVarint, ZigZag, LittleEndian;
    match f.ltype
    case BOOL =>
      ok := EncodeVarint(stream, if n != 0 then 1 else 0);
    case VARINT | UVARINT =>
      if !IntegerSize(f.dataSize) {
        RanFails(stream.writing, stream.maxSize, stream.Now(), EncNumber(f.ltype, n));
        return false;
      }
      ok := EncodeVarint(stream, n % TWO_64);
    case SVARINT =>
      if !IntegerSize(f.dataSize) {
        RanFails(stream.writing, stream.maxSize, stream.Now(), EncNumber(f.ltype, n));
        return false;
      }
      ok := EncodeSvarint(stream, n);
    case FIXED32 =>
      ok := EncodeFixed32(stream, n % TWO_32);
    case FIXED64 =>
      ok := EncodeFixed64(stream, n % TWO_64);
  }

  /** pb_enc_bytes */
  method EncodeBytes(stream: OStream, f: Field, bs: seq<byte>) returns (ok: bool)
    requires stream.Valid() && f.ltype.BYTES? && WellFormedField(f)
    modifies stream, stream.buf
    ensures stream.Valid()
    ensures Ran(stream.writing, stream.maxSize, old(stream.Now()), stream.Now(), ok, EncodableValue(f, Chars(bs)),
          EncDelimited(bs))
  {
    hide Ran, EncDelimited;
    var allocsize := |bs| + BYTES_OFFSET;
    if allocsize < |bs| || allocsize > f.dataSize {
      RanFails(stream.writing, stream.maxSize, stream.Now(), EncDelimited(bs));
      return false;
    }
    ok := EncodeString(stream, bs);
  }

  /** pb_enc_string: up to the first NUL, and never beyond the buffer. */
  method EncodeCString(stream: OStream, f: Field, bs: seq<byte>) returns (ok: bool)
    requires stream.Valid() && f.ltype.STRING? && WellFormedField(f)
    modifies stream, stream.buf
    ensures stream.Valid()
    ensures Ran(stream.writing, stream.maxSize, old(stream.Now()), stream.Now(), ok,
                true, EncDelimited(CString(bs, f.dataSize)))
  {
    hide Ran, CString;
    var size := 0;
    assert bs[0..] == bs;
    while size < f.dataSize && size < |bs| && bs[size] != 0
      invariant 0 <= size <= |bs| && size <= f.dataSize
      invariant stream.Valid() && stream.Now() == old(stream.Now())
      invariant |CString(bs, f.dataSize)| == size + |CString(bs[size..], f.dataSize - size)|
    {
      CStringStep(bs[size..], f.dataSize - size);
      assert bs[size..][1..] == bs[size + 1..];
      size := size + 1;
    }
    CStringStep(bs[size..], f.dataSize - size);
    assert CString(bs, f.dataSize) == bs[..size];
    ok := EncodeString(stream, bs[..size]);
  }

  lemma CStringStep(bs: seq<byte>, max: nat)
    ensures CString(bs, max) == if bs == [] || max == 0 || bs[0] == 0 then [] else [bs[0]] + CString(bs[1..], max - 1)
  {
  }

  /** PB_ENCODERS */
  method EncodeValue(stream: OStream, f: Field, v: Value) returns (ok: bool)
    requires stream.Valid() && WellFormedField(f) && TypedValue(f, v)
    requires stream.bytesWritten + |EncValue(f, v)| < TWO_64
    modifies stream, stream.buf
    ensures stream.Valid()
    ensures Ran(stream.writing, stream.maxSize, old(stream.Now()), stream.Now(), ok, EncodableValue(f, v),
          EncValue(f, v))
    decreases v, 0
  {
    hide Ran, EncDelimited, CString, EncNumber, EncFrom, Encodable;
    match f.ltype
    case BYTES => ok := EncodeBytes(stream, f, v.bs);
    case STRING => ok := EncodeCString(stream, f, v.bs);
    case FIXED_LENGTH_BYTES => ok := EncodeString(stream, v.bs);
    case SUBMESSAGE =>
      assert |v.cells| == |f.ptr.fields| by { TypedCount(f.ptr.fields, v.cells); }
      ok := EncodeSubmessage(stream, f.ptr.fields, v.cells);
    case _ => ok := EncodeNumber(stream, f, v.n);
  }

  lemma TypedCount(fields: seq<Field>, cells: seq<Cell>)
    requires Typed(fields, cells)
    ensures |cells| == |fields|
  {
  }

  /** pb_encode_submessage: a dry run gives the length prefix, then the body is written through a
    * substream of just that size. */
  method EncodeSubmessage(stream: OStream, fields: seq<Field>, cells: seq<Cell>) returns (ok: bool)
    requires stream.Valid() && WellFormed(fields) && Typed(fields, cells) && |cells| == |fields|
    requires stream.bytesWritten + |EncDelimited(EncMessage(fields, cells))| < TWO_64
    modifies stream, stream.buf
    ensures stream.Valid()
    ensures Ran(stream.writing, stream.maxSize, old(stream.Now()), stream.Now(), ok,
                Encodable(fields, cells), EncDelimited(EncMessage(fields, cells)))
    decreases cells, 3
  {
    ghost var body := EncMessage(fields, cells);
    ghost var prefix := EncVarint(|body|);
    ghost var start := stream.Now();
    hide Ran, EncVarint, EncMessage, Encodable, Typed, WellFormed;
    var sizing := new OStream.Sizing();
    ghost var sizingStart := sizing.Now();
    var sized := PbEncode(sizing, fields, cells);
    Counted(sizing.maxSize, sizingStart, sizing.Now(), sized, Encodable(fields, cells), body);
    if !sized {
      RanFails(stream.writing, stream.maxSize, start, prefix + body);
      return false;
    }
    var size := sizing.bytesWritten;

    ok := EncodeVarint(stream, size);
    ghost var middle := stream.Now();
    if !ok {
      RanShort(stream.writing, stream.maxSize, start, middle, true, true, prefix, body);
      return;
    }
    RanWritten(stream.writing, stream.maxSize, start, middle, true, prefix);
    ok := EncodeBody(stream, fields, cells, size);
    RanBoth(stream.writing, stream.maxSize, start, middle, stream.Now(), ok, true, true, prefix, body);
  }

  /** The second half of pb_encode_submessage; "submsg size changed" is out of reach. */
  method EncodeBody(stream: OStream, fields: seq<Field>, cells: seq<Cell>, size: nat) returns (ok: bool)
    requires stream.Valid() && WellFormed(fields) && Typed(fields, cells) && |cells| == |fields|
    requires Encodable(fields, cells) && size == |EncMessage(fields, cells)| && stream.bytesWritten + size < TWO_64
    modifies stream, stream.buf
    ensures stream.Valid()
    ensures Ran(stream.writing, stream.maxSize, old(stream.Now()), stream.Now(), ok, true, EncMessage(fields, cells))
    decreases cells, 2
  {
    ghost var body := EncMessage(fields, cells);
    ghost var start := stream.Now();
    hide Ran, EncMessage, Encodable, Typed, WellFormed;
    if !stream.writing {
      ok := stream.Write([], size); // just sizing
      RanCounted(stream.maxSize, start, stream.Now(), body);
    } else if stream.bytesWritten + size > stream.maxSize {
      ok := false;
      RanFull(stream.maxSize, start, body);
    } else {
      var substream := new OStream.ToBuffer(stream.buf, stream.state, size);
      ghost var substart := substream.Now();
      ok := PbEncode(substream, fields, cells);
      RanThroughSubstream(stream.maxSize, start, substart, substream.Now(), ok, body);
      stream.bytesWritten := stream.bytesWritten + substream.bytesWritten;
      stream.state := substream.state;
      if substream.bytesWritten != size {
        assert false;
      }
    }
  }

  lemma Counted(max: nat, s: Snapshot, t: Snapshot, ok: bool, enc: bool, bs: seq<byte>)
    requires Ran(false, max, s, t, ok, enc, bs) && s.written + |bs| < TWO_64
    ensures ok == enc
    ensures ok ==> t.written == s.written + |bs|
  {
  }

  lemma RanCounted(max: nat, s: Snapshot, t: Snapshot, bs: seq<byte>)
    requires t.memory == s.memory && t.written == s.written + |bs|
    ensures Ran(false, max, s, t, true, true, bs)
  {
  }

  /** A substream that gets just the room it needs writes what the stream would have written. */
  lemma RanThroughSubstream(max: nat, s: Snapshot, substart: Snapshot, subend: Snapshot, ok: bool, bs: seq<byte>)
    requires substart == Snapshot(0, s.state, s.memory) && |bs| < TWO_64
    requires s.written + |bs| <= max && s.state + (max - s.written) <= |s.memory|
    requires Ran(true, |bs|, substart, subend, ok, true, bs)
    ensures ok && subend.written == |bs|
    ensures subend.state == s.state + |bs|
    ensures Ran(true, max, s, Snapshot(s.written + |bs|, subend.state, subend.memory), true, true, bs)
  {
    var e := s.state + (max - s.written);
    assert subend.memory[..s.state] == s.memory[..s.state];
    assert subend.memory[e..] == s.memory[e..];
  }

  // ----- arrays -----

  ghost predicate TypedItems(f: Field, items: seq<Value>) {
    forall k | 0 <= k < |items| :: TypedValue(f, items[k])
  }

  predicate EncodableItems(f: Field, items: seq<Value>) {
    forall k | 0 <= k < |items| :: EncodableValue(f, items[k])
  }

  /** Either loop over a packable array in encode_array. */
  method EncodePackedItems(stream: OStream, f: Field, items: seq<Value>) returns (ok: bool)
    requires stream.Valid() && WellFormedField(f) && f.ltype.Packable() && TypedItems(f, items)
    requires stream.bytesWritten + |EncPacked(f, items)| < TWO_64
    modifies stream, stream.buf
    ensures stream.Valid()
    ensures Ran(stream.writing, stream.maxSize, old(stream.Now()), stream.Now(), ok, true, EncPacked(f, items))
    decreases items, 0
  {
    hide Ran, EncPacked, EncValue;
    ghost var start := stream.Now();
    ghost var done: seq<byte> := [];
    RanNothing(stream.writing, stream.maxSize, start);
    var i := 0;
    assert items[0..] == items;
    while i < |items|
      invariant 0 <= i <= |items| && stream.Valid()
      invariant EncPacked(f, items) == done + EncPacked(f, items[i..])
      invariant Ran(stream.writing, stream.maxSize, start, stream.Now(), true, true, done)
    {
      ghost var before := stream.Now();
      ghost var part := EncValue(f, items[i]);
      ghost var rest := EncPacked(f, items[i + 1..]);
      PackedStep(f, items, i);
      RanWritten(stream.writing, stream.maxSize, start, before, true, done);
      PackableEncodable(f, items[i]);
      ok := EncodeValue(stream, f, items[i]);
      RanBoth(stream.writing, stream.maxSize, start, before, stream.Now(), ok, true, true, done, part);
      done := done + part;
      assert EncPacked(f, items) == done + rest;
      if !ok {
        RanShort(stream.writing, stream.maxSize, start, stream.Now(), true, true, done, rest);
        return;
      }
      i := i + 1;
    }
    assert items[i..] == [];
    assert EncPacked(f, items) == done by { PackedEmpty(f); }
    ok := true;
  }

  lemma PackedStep(f: Field, items: seq<Value>, i: nat)
    requires i < |items|
    ensures EncPacked(f, items[i..]) == EncValue(f, items[i]) + EncPacked(f, items[i + 1..])
  {
    assert items[i..][1..] == items[i + 1..];
  }

  lemma PackedEmpty(f: Field)
    ensures EncPacked(f, []) == []
  {
  }

  lemma PackableEncodable(f: Field, v: Value)
    requires WellFormedField(f) && f.ltype.Packable() && TypedValue(f, v)
    ensures EncodableValue(f, v)
  {
  }

  /** The loop over any other array in encode_array. */
  method EncodeItems(stream: OStream, f: Field, items: seq<Value>) returns (ok: bool)
    requires stream.Valid() && WellFormedField(f) && TypedItems(f, items)
    requires stream.bytesWritten + |EncRecords(f, items)| < TWO_64
    modifies stream, stream.buf
    ensures stream.Valid()
    ensures Ran(stream.writing, stream.maxSize, old(stream.Now()), stream.Now(), ok, EncodableItems(f, items),
          EncRecords(f, items))
    decreases items, 0
  {
    hide Ran, EncRecords, EncValue, EncodableValue, EncTag, EncodableItems;
    ghost var start := stream.Now();
    ghost var all := EncodableItems(f, items);
    ghost var done: seq<byte> := [];
    RanNothing(stream.writing, stream.maxSize, start);
    EncodableItemsStep(f, items, 0);
    var i := 0;
    assert items[0..] == items && items[..0] == [];
    while i < |items|
      invariant 0 <= i <= |items| && stream.Valid()
      invariant EncRecords(f, items) == done + EncRecords(f, items[i..])
      invariant EncodableItems(f, items[..i])
      invariant Ran(stream.writing, stream.maxSize, start, stream.Now(), true, true, done)
    {
      ghost var before := stream.Now();
      ghost var part := EncTag(WireType(f.ltype), f.tag) + EncValue(f, items[i]);
      ghost var rest := EncRecords(f, items[i + 1..]);
      RecordsStep(f, items, i);
      EncodableItemsStep(f, items, i);
      RanWritten(stream.writing, stream.maxSize, start, before, true, done);
      ok := EncodeTagged(stream, f, items[i]);
      RanBoth(stream.writing, stream.maxSize, start, before, stream.Now(), ok, true, EncodableValue(f, items[i]),
            done, part);
      done := done + part;
      assert EncRecords(f, items) == done + rest;
      if !ok {
        RanShort(stream.writing, stream.maxSize, start, stream.Now(), EncodableValue(f, items[i]), all, done, rest);
        return;
      }
      RanEncoded(stream.writing, stream.maxSize, start, stream.Now(), EncodableValue(f, items[i]), done);
      i := i + 1;
    }
    assert items[i..] == [] && items[..i] == items;
    assert EncRecords(f, items) == done by { RecordsEmpty(f); }
    ok := true;
  }

  lemma RecordsStep(f: Field, items: seq<Value>, i: nat)
    requires i < |items|
    ensures EncRecords(f, items[i..])
         == EncTag(WireType(f.ltype), f.tag) + EncValue(f, items[i]) + EncRecords(f, items[i + 1..])
  {
    assert items[i..][1..] == items[i + 1..];
  }

  lemma RecordsEmpty(f: Field)
    ensures EncRecords(f, []) == []
  {
  }

  lemma EncodableItemsStep(f: Field, items: seq<Value>, i: nat)
    requires i <= |items|
    ensures i == 0 ==> EncodableItems(f, items[..i])
    ensures EncodableItems(f, items) ==> i == |items| || EncodableValue(f, items[i])
    ensures i < |items| ==>
              (EncodableItems(f, items[..i + 1]) <==> EncodableItems(f, items[..i]) && EncodableValue(f, items[i]))
  {
    hide EncodableValue;
    if i < |items| {
      assert items[..i + 1] == items[..i] + [items[i]];
    }
  }

  lemma RanEncoded(writing: bool, max: nat, s: Snapshot, t: Snapshot, enc: bool, bs: seq<byte>)
    requires Ran(writing, max, s, t, true, enc, bs)
    ensures enc && Ran(writing, max, s, t, true, true, bs)
  {
  }

  /** A tag and its value, as encode_basic_field writes them for a singular field. */
  method EncodeTagged(stream: OStream, f: Field, v: Value) returns (ok: bool)
    requires stream.Valid() && WellFormedField(f) && TypedValue(f, v)
    requires stream.bytesWritten + |EncTag(WireType(f.ltype), f.tag) + EncValue(f, v)| < TWO_64
    modifies stream, stream.buf
    ensures stream.Valid()
    ensures Ran(stream.writing, stream.maxSize, old(stream.Now()), stream.Now(), ok, EncodableValue(f, v),
                EncTag(WireType(f.ltype), f.tag) + EncValue(f, v))
    decreases v, 1
  {
    hide Ran, EncValue, EncodableValue, EncTag, TypedValue, WellFormedField;
    ghost var start := stream.Now();
    ghost var head, tail := EncTag(WireType(f.ltype), f.tag), EncValue(f, v);
    ok := EncodeTagForField(stream, f);
    ghost var middle := stream.Now();
    if !ok {
      RanShort(stream.writing, stream.maxSize, start, middle, true, EncodableValue(f, v), head, tail);
      return;
    }
    RanWritten(stream.writing, stream.maxSize, start, middle, true, head);
    ok := EncodeValue(stream, f, v);
    RanBoth(stream.writing, stream.maxSize, start, middle, stream.Now(), ok, true, EncodableValue(f, v), head, tail);
  }

  // ----- fields -----

  /** encode_array */
  method EncodeArray(stream: OStream, f: Field, items: seq<Value>) returns (ok: bool)
    requires stream.Valid() && WellFormedField(f) && TypedItems(f, items)
    requires stream.bytesWritten + |EncArray(f, items)| < TWO_64
    modifies stream, stream.buf
    ensures stream.Valid()
    ensures Ran(stream.writing, stream.maxSize, old(stream.Now()), stream.Now(), ok,
                |items| <= f.arraySize && EncodableItems(f, items), EncArray(f, items))
    decreases items, 3
  {
    hide Ran, EncRecords, EncPacked, EncodableItems, TypedItems, WellFormedField, EncTag, EncVarint;
    var count := |items|;
    if count == 0 {
      RanNothing(stream.writing, stream.maxSize, stream.Now());
      NoItems(f);
      return true;
    }
    if count > f.arraySize {
      RanFails(stream.writing, stream.maxSize, stream.Now(), EncArray(f, items));
      return false;
    }
    if f.ltype.Packable() {
      PackableItems(f, items);
      ok := EncodePacked(stream, f, items);
    } else {
      ok := EncodeItems(stream, f, items);
    }
  }

  lemma NoItems(f: Field)
    ensures EncodableItems(f, [])
  {
  }

  lemma PackableItems(f: Field, items: seq<Value>)
    requires WellFormedField(f) && f.ltype.Packable() && TypedItems(f, items)
    ensures EncodableItems(f, items) && forall k | 0 <= k < |items| :: items[k].Number?
  {
  }

  /** The total size of a packed array. */
  method PackedSize(f: Field, items: seq<Value>) returns (size: nat)
    requires WellFormedField(f) && TypedItems(f, items) && f.ltype.Packable() && |EncPacked(f, items)| < TWO_64
    ensures size == |EncPacked(f, items)|
    decreases items, 1
  {
    PackableItems(f, items);
    PackedLength(f, items);
    hide Ran, EncPacked, EncodableItems, TypedItems, WellFormedField;
    if f.ltype.FIXED32? {
      size := 4 * |items|;
    } else if f.ltype.FIXED64? {
      size := 8 * |items|;
    } else {
      var sizestream := new OStream.Sizing();
      ghost var start := sizestream.Now();
      var ok := EncodePackedItems(sizestream, f, items);
      Counted(sizestream.maxSize, start, sizestream.Now(), ok, true, EncPacked(f, items));
      size := sizestream.bytesWritten;
    }
  }

  /** Writes the data of a packed array, or counts it. */
  method EncodePackedBody(stream: OStream, f: Field, items: seq<Value>, size: nat) returns (ok: bool)
    requires stream.Valid() && WellFormedField(f) && TypedItems(f, items) && f.ltype.Packable()
    requires size == |EncPacked(f, items)| && stream.bytesWritten + size < TWO_64
    modifies stream, stream.buf
    ensures stream.Valid()
    ensures Ran(stream.writing, stream.maxSize, old(stream.Now()), stream.Now(), ok, true, EncPacked(f, items))
    decreases items, 1
  {
    hide Ran, EncPacked, TypedItems, WellFormedField;
    if !stream.writing {
      ghost var start := stream.Now();
      ok := stream.Write([], size); // just sizing
      RanCounted(stream.maxSize, start, stream.Now(), EncPacked(f, items));
    } else {
      ok := EncodePackedItems(stream, f, items);
    }
  }

  /** The packed half of encode_array. */
  method EncodePacked(stream: OStream, f: Field, items: seq<Value>) returns (ok: bool)
    requires stream.Valid() && WellFormedField(f) && TypedItems(f, items) && f.ltype.Packable() && items != []
    requires stream.bytesWritten + |EncTag(WT_STRING, f.tag) + EncDelimited(EncPacked(f, items))| < TWO_64
    modifies stream, stream.buf
    ensures stream.Valid()
    ensures Ran(stream.writing, stream.maxSize, old(stream.Now()), stream.Now(), ok, true,
                EncTag(WT_STRING, f.tag) + EncDelimited(EncPacked(f, items)))
    decreases items, 2
  {
    ghost var body := EncPacked(f, items);
    ghost var tag, prefix := EncTag(WT_STRING, f.tag), EncVarint(|body|);
    ghost var head := tag + prefix;
    assert tag + EncDelimited(body) == head + body;
    ghost var start := stream.Now();
    hide Ran, EncRecords, EncPacked, EncodableItems, TypedItems, WellFormedField, EncTag, EncVarint, EncDelimited;
    ok := EncodeTag(stream, WT_STRING, f.tag);
    ghost var tagged := stream.Now();
    if !ok {
      RanShort(stream.writing, stream.maxSize, start, tagged, true, true, tag, EncDelimited(body));
      return;
    }

    var size := PackedSize(f, items);
    ok := EncodeVarint(stream, size);
    ghost var middle := stream.Now();
    RanBoth(stream.writing, stream.maxSize, start, tagged, middle, ok, true, true, tag, prefix);
    if !ok {
      RanShort(stream.writing, stream.maxSize, start, middle, true, true, head, body);
      return;
    }
    RanWritten(stream.writing, stream.maxSize, start, middle, true, head);
    ok := EncodePackedBody(stream, f, items, size);
    RanBoth(stream.writing, stream.maxSize, start, middle, stream.Now(), ok, true, true, head, body);
  }

  /** The kinds of cells, and what is written of them. */
  lemma FieldShape(f: Field, c: Cell)
    requires TypedCell(f, c)
    ensures f.htype.REQUIRED? || f.htype.OPTIONAL? ==> c.Single? && TypedValue(f, c.value)
    ensures f.htype.REPEATED? ==> c.Many? && TypedItems(f, c.items)
    ensures f.htype.REPEATED? ==> EncField(f, c) == EncArray(f, c.items)
    ensures f.htype.REPEATED? ==> EncodableCell(f, c) == (|c.items| <= f.arraySize && EncodableItems(f, c.items))
    ensures f.htype.ONEOF? ==> c.NoneOf? || (c.OneOf? && (c.which == f.tag ==> TypedValue(f, c.value)))
    ensures !c.Many? && Written(f, c) ==>
              && EncField(f, c) == EncTag(WireType(f.ltype), f.tag) + EncValue(f, c.value)
              && EncodableCell(f, c) == EncodableValue(f, c.value)
    ensures !Written(f, c) && !c.Many? ==> EncField(f, c) == [] && EncodableCell(f, c)
  {
  }

  /** encode_basic_field */
  method EncodeBasicField(stream: OStream, f: Field, c: Cell) returns (ok: bool)
    requires stream.Valid() && WellFormedField(f) && TypedCell(f, c)
    requires stream.bytesWritten + |EncField(f, c)| < TWO_64
    modifies stream, stream.buf
    ensures stream.Valid()
    ensures Ran(stream.writing, stream.maxSize, old(stream.Now()), stream.Now(), ok,
                EncodableCell(f, c), EncField(f, c))
    decreases c, 3
  {
    FieldShape(f, c);
    hide Ran, EncField, EncArray, EncValue, EncTag, EncodableCell, EncodableValue, EncodableItems;
    hide TypedCell, TypedValue, TypedItems, WellFormedField, IsZero;
    RanNothing(stream.writing, stream.maxSize, stream.Now());
    var implicitHas := true;
    if f.sizeOffset == 0 && f.htype.OPTIONAL? {
      var zero := CheckProto3DefaultValue(f, c);
      implicitHas := !zero;
    }
    match f.htype
    case REQUIRED =>
      ok := EncodeTagged(stream, f, c.value);
    case OPTIONAL =>
      var has := if f.sizeOffset != 0 then c.has else implicitHas;
      ok := true;
      if has {
        ok := EncodeTagged(stream, f, c.value);
      }
    case REPEATED =>
      ok := EncodeArray(stream, f, c.items);
    case ONEOF =>
      ok := true;
      if c.OneOf? && c.which == f.tag {
        ok := EncodeTagged(stream, f, c.value);
      }
  }

  // ----- messages -----

  ghost predicate EncodableUpTo(fields: seq<Field>, cells: seq<Cell>, n: nat)
    requires n <= |fields| == |cells|
  {
    forall j {:trigger Home(fields, j)} | 0 <= j < n :: EncodableCell(fields[j], cells[Home(fields, j)])
  }

  lemma EncodableUpToGrows(fields: seq<Field>, cells: seq<Cell>, n: nat)
    requires n <= |fields| == |cells|
    ensures EncodableUpTo(fields, cells, 0)
    ensures EncodableUpTo(fields, cells, |fields|) <==> Encodable(fields, cells)
    ensures n < |fields| ==>
              (EncodableUpTo(fields, cells, n + 1) <==>
                 EncodableUpTo(fields, cells, n) && EncodableCell(fields[n], cells[Home(fields, n)]))
    ensures n < |fields| && Encodable(fields, cells) ==> EncodableCell(fields[n], cells[Home(fields, n)])
  {
    hide EncodableCell, Home;
  }

  lemma EncFromStep(fields: seq<Field>, cells: seq<Cell>, i: nat)
    requires i < |fields| == |cells|
    ensures EncFrom(fields, cells, i) == EncField(fields[i], cells[Home(fields, i)]) + EncFrom(fields, cells, i + 1)
  {
  }

  /** pb_encode */
  method PbEncode(stream: OStream, fields: seq<Field>, cells: seq<Cell>) returns (ok: bool)
    requires stream.Valid() && WellFormed(fields) && Typed(fields, cells) && |cells| == |fields|
    requires stream.bytesWritten + |EncMessage(fields, cells)| < TWO_64
    modifies stream, stream.buf
    ensures stream.Valid()
    ensures Ran(stream.writing, stream.maxSize, old(stream.Now()), stream.Now(), ok,
                Encodable(fields, cells), EncMessage(fields, cells))
    decreases cells, 1
  {
    NonzeroTags(fields);
    ghost var start := stream.Now();
    EncodingStarts(stream.writing, stream.maxSize, start, fields, cells);
    hide Ran, Encoding, WellFormed, WellFormedField, Typed, TypedCell, Encodable, EncMessage, Home;
    hide FieldIter.Valid, FieldIter.ValidInDecoder;
    var iter := new FieldIter(fields);
    var nonempty := iter.Begin();
    if !nonempty {
      return true;
    }
    while true
      invariant fresh(iter) && iter.Valid() && iter.start == fields && iter.pos < |fields|
      invariant stream.Valid() && start == old(stream.Now())
      invariant Encoding(stream.writing, stream.maxSize, start, stream.Now(), fields, cells, iter.pos)
      decreases |fields| - iter.pos
    {
      ok := EncodeFieldAt(stream, fields, cells, iter.pos, start);
      if !ok {
        return;
      }
      iter.ValidAlsoInDecoder();
      var more := iter.Next();
      if !more {
        break;
      }
    }
    ok := true;
  }

  /** The loop of pb_encode has written the first i fields. */
  ghost predicate Encoding(writing: bool, max: nat, s: Snapshot, t: Snapshot, fields: seq<Field>, cells: seq<Cell>,
        i: nat)
    requires i <= |fields| == |cells|
  {
    && EncodableUpTo(fields, cells, i)
    && Ran(writing, max, s, t, true, true, EncBefore(fields, cells, i))
  }

  /** The bytes of the first i fields. */
  ghost function EncBefore(fields: seq<Field>, cells: seq<Cell>, i: nat): seq<byte>
    requires i <= |fields| == |cells|
  {
    if i == 0 then [] else EncBefore(fields, cells, i - 1) + EncField(fields[i - 1], cells[Home(fields, i - 1)])
  }

  lemma {:induction false} EncSplits(fields: seq<Field>, cells: seq<Cell>, i: nat)
    requires i <= |fields| == |cells|
    ensures EncMessage(fields, cells) == EncBefore(fields, cells, i) + EncFrom(fields, cells, i)
  {
    hide EncField, Home;
    if i > 0 {
      EncSplits(fields, cells, i - 1);
    }
  }

  lemma EncodingStarts(writing: bool, max: nat, s: Snapshot, fields: seq<Field>, cells: seq<Cell>)
    requires |fields| == |cells|
    requires writing ==> s.written <= max && s.state + (max - s.written) <= |s.memory|
    ensures Encoding(writing, max, s, s, fields, cells, 0)
    ensures fields == [] ==> Ran(writing, max, s, s, true, Encodable(fields, cells), EncMessage(fields, cells))
  {
    RanNothing(writing, max, s);
    EncodableUpToGrows(fields, cells, 0);
  }

  lemma EncodingGrows(writing: bool, max: nat, s: Snapshot, t: Snapshot, u: Snapshot, ok: bool,
                      fields: seq<Field>, cells: seq<Cell>, i: nat)
    requires i < |fields| == |cells|
    requires Encoding(writing, max, s, t, fields, cells, i)
    requires Ran(writing, max, t, u, ok,
                 EncodableCell(fields[i], cells[Home(fields, i)]), EncField(fields[i], cells[Home(fields, i)]))
    ensures ok && i + 1 < |fields| ==> Encoding(writing, max, s, u, fields, cells, i + 1)
    ensures (ok && i + 1 < |fields|) || Ran(writing, max, s, u, ok, Encodable(fields, cells), EncMessage(fields, cells))
  {
    var enc, part := EncodableCell(fields[i], cells[Home(fields, i)]), EncField(fields[i], cells[Home(fields, i)]);
    FieldAdded(fields, cells, i);
    hide Ran, Encodable, EncodableUpTo, EncodableCell, EncMessage, EncBefore, EncFrom, EncField, Home;
    RanBoth(writing, max, s, t, u, ok, true, enc, EncBefore(fields, cells, i), part);
    if ok {
      RanEncoded(writing, max, s, u, enc, EncBefore(fields, cells, i + 1));
    } else {
      RanShort(writing, max, s, u, enc, Encodable(fields, cells),
               EncBefore(fields, cells, i + 1), EncFrom(fields, cells, i + 1));
    }
  }

  lemma FieldAdded(fields: seq<Field>, cells: seq<Cell>, i: nat)
    requires i < |fields| == |cells| && EncodableUpTo(fields, cells, i)
    ensures EncBefore(fields, cells, i + 1) == EncBefore(fields, cells, i) + EncField(fields[i], cells[Home(fields, i)])
    ensures EncMessage(fields, cells) == EncBefore(fields, cells, i + 1) + EncFrom(fields, cells, i + 1)
    ensures i + 1 == |fields| ==> EncFrom(fields, cells, i + 1) == []
    ensures EncodableCell(fields[i], cells[Home(fields, i)]) ==> EncodableUpTo(fields, cells, i + 1)
    ensures i + 1 == |fields| && EncodableUpTo(fields, cells, i + 1) ==> Encodable(fields, cells)
    ensures Encodable(fields, cells) ==> EncodableCell(fields[i], cells[Home(fields, i)])
  {
    EncSplits(fields, cells, i + 1);
    EncodableUpToGrows(fields, cells, i);
    EncodableUpToGrows(fields, cells, |fields|);
    hide EncodableUpTo, Encodable, EncodableCell, EncField, Home;
  }

  /** The body of the loop in pb_encode. */
  method EncodeFieldAt(stream: OStream, fields: seq<Field>, cells: seq<Cell>, i: nat, ghost start: Snapshot)
    returns (ok: bool)
    requires stream.Valid() && WellFormed(fields) && Typed(fields, cells) && i < |fields| == |cells|
    requires start.written + |EncMessage(fields, cells)| < TWO_64
    requires Encoding(stream.writing, stream.maxSize, start, stream.Now(), fields, cells, i)
    modifies stream, stream.buf
    ensures stream.Valid()
    ensures ok && i + 1 < |fields| ==> Encoding(stream.writing, stream.maxSize, start, stream.Now(), fields, cells,
          i + 1)
    ensures (ok && i + 1 < |fields|) ||
            Ran(stream.writing, stream.maxSize, start, stream.Now(), ok,
                Encodable(fields, cells), EncMessage(fields, cells))
    decreases cells, 0
  {
    ghost var before := stream.Now();
    EncodingRoom(stream.writing, stream.maxSize, start, before, fields, cells, i);
    TypedFacts(fields, cells, i);
    hide Ran, Encoding, WellFormed, WellFormedField, Typed, TypedCell, Encodable, EncodableCell, EncMessage, EncField,
      Home;
    ok := EncodeBasicField(stream, fields[i], cells[Home(fields, i)]);
    EncodingGrows(stream.writing, stream.maxSize, start, before, stream.Now(), ok, fields, cells, i);
  }

  lemma EncodingRoom(writing: bool, max: nat, s: Snapshot, t: Snapshot, fields: seq<Field>, cells: seq<Cell>, i: nat)
    requires i < |fields| == |cells| && Encoding(writing, max, s, t, fields, cells, i)
    requires s.written + |EncMessage(fields, cells)| < TWO_64
    ensures t.written + |EncField(fields[i], cells[Home(fields, i)])| < TWO_64
  {
    EncSplits(fields, cells, i);
    EncFromStep(fields, cells, i);
    hide EncMessage, EncBefore, EncFrom, EncField, Home;
    RanWritten(writing, max, s, t, true, EncBefore(fields, cells, i));
  }

  /** pb_get_encoded_size */
  method GetEncodedSize(fields: seq<Field>, cells: seq<Cell>) returns (ok: bool, size: nat)
    requires WellFormed(fields) && Typed(fields, cells) && |cells| == |fields| && |EncMessage(fields, cells)| < TWO_64
    ensures ok <==> Encodable(fields, cells)
    ensures ok ==> size == |EncMessage(fields, cells)|
  {
    hide Ran, Encodable, EncMessage;
    var stream := new OStream.Sizing();
    ghost var start := stream.Now();
    ok := PbEncode(stream, fields, cells);
    Counted(stream.maxSize, start, stream.Now(), ok, Encodable(fields, cells), EncMessage(fields, cells));
    size := stream.bytesWritten;
  }
}
