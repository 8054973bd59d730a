/** pb_decode as it runs: methods that advance a stream and update a struct in place. Each is proved
  * against its function in module Decode, and so for every input and every struct. */
module Decoder {
  import opened Varints
  import opened Schema
  import opened Scalars
  import opened Encode
  import opened Decode
  import opened Options
  import opened Merge
  import opened RoundTrip
  import opened Input
  import opened Iterator
  import opened Bitmap
  import opened Unset
  import opened Effects

  /** The destination struct. */
  class Struct {
    var cells: seq<Cell>

    constructor (cells: seq<Cell>)
      ensures this.cells == cells
    {
      this.cells := cells;
    }

    /** A struct in fresh memory. */
    constructor Uninitialized(fields: seq<Field>)
      ensures HasLayout(fields, cells)
    {
      cells := seq(|fields|, i requires 0 <= i < |fields| => if Continues(fields, i) then Shared else NoneOf);
    }
  }

  /** The local counter whose address stands in for the missing count of a fixed-count array. */
  class Counter {
    var value: nat

    constructor ()
      ensures value == 0
    {
      value := 0;
    }
  }

  /** A cell for each field, those of later union members standing in. */
  predicate HasLayout(fields: seq<Field>, cells: seq<Cell>) {
    && |cells| == |fields|
    && forall i {:trigger Continues(fields, i)} | 0 <= i < |fields| :: Continues(fields, i) ==> cells[i].Shared?
  }

  // ----- default values -----

  /** pb_field_set_to_default */
  method FieldSetToDefault(iter: FieldIter, dest: Struct)
    requires iter.Valid() && iter.pos < |iter.start| && WellFormed(iter.start) && HasLayout(iter.start, dest.cells)
    modifies dest
    ensures dest.cells == old(dest.cells)[Home(iter.start, iter.pos) := DefaultCell(iter.start[iter.pos])]
    ensures UnsetCell(iter.start[iter.pos], dest.cells[Home(iter.start, iter.pos)])
    decreases iter.Pos(), 0
  {
    assert UnsetCell(iter.start[iter.pos], DefaultCell(iter.start[iter.pos])) by {
      assert WellFormedField(iter.start[iter.pos]);
      DefaultCellUnset(iter.start[iter.pos]);
    }
    hide UnsetCell;
    var f, h := iter.Pos(), Home(iter.start, iter.pos);
    assert WellFormedField(f);
    HasFlag(iter.start, iter.pos);
    var initData, has := true, true;
    if f.htype.OPTIONAL? && iter.pSize != InStruct(iter.pData) {
      has := false;
    } else if f.htype.REPEATED? || f.htype.ONEOF? {
      dest.cells := dest.cells[h := if f.htype.REPEATED? then Many([]) else NoneOf];
      initData := false;
    }
    if initData {
      if f.ltype.SUBMESSAGE? {
        var sub := new Struct.Uninitialized(f.ptr.fields);
        MessageSetToDefaults(f.ptr.fields, sub);
        dest.cells := dest.cells[h := Single(has, Message(sub.cells))];
      } else if f.ptr.Default? {
        dest.cells := dest.cells[h := Single(has, f.ptr.value)];
      } else {
        dest.cells := dest.cells[h := Single(has, ZeroValue(f))];
      }
    }
  }

  /** pSize differs from pData exactly if there is something besides the data. */
  lemma HasFlag(fields: seq<Field>, i: nat)
    requires WellFormed(fields) && i < |fields|
    ensures !fields[i].htype.ONEOF? ==>
              (SizeOffset(fields, i) == DataOffset(fields, i) <==> fields[i].sizeOffset == 0)
  {
  }

  /** pb_message_set_to_defaults */
  method MessageSetToDefaults(fields: seq<Field>, dest: Struct)
    requires WellFormed(fields) && HasLayout(fields, dest.cells)
    modifies dest
    ensures dest.cells == Defaults(fields)
    decreases fields, 1
  {
    assert forall i | 0 <= i < |fields| :: WellFormedField(fields[i]);
    NoneDefaulted(fields, dest.cells);
    hide WellFormed, WellFormedField, HasLayout, Defaulted, DefaultCell, Home, RequiredBefore, DataOffset, SizeOffset;
    var iter := new FieldIter(fields);
    var nonempty := iter.Begin();
    if nonempty {
      while true
        invariant iter.Valid() && fresh(iter) && iter.start == fields && iter.pos < |fields|
        invariant HasLayout(fields, dest.cells) && Defaulted(fields, dest.cells, iter.pos)
        decreases |fields| - iter.pos
      {
        DefaultAt(fields, iter.pos);
        DefaultStep(fields, dest.cells, iter.pos, Home(fields, iter.pos), DefaultCell(fields[iter.pos]));
        FieldSetToDefault(iter, dest);
        var more := iter.Next();
        if !more {
          break;
        }
      }
    }
    AllDefaulted(fields, dest.cells);
  }

  /** The cells up to n have their default values. */
  ghost predicate Defaulted(fields: seq<Field>, cells: seq<Cell>, n: nat)
    requires |cells| == |fields| && n <= |fields|
  {
    forall j | 0 <= j < n :: cells[j] == Defaults(fields)[j]
  }

  lemma NoneDefaulted(fields: seq<Field>, cells: seq<Cell>)
    requires HasLayout(fields, cells)
    ensures |cells| == |fields| && Defaulted(fields, cells, 0)
  {
  }

  lemma DefaultStep(fields: seq<Field>, cells: seq<Cell>, i: nat, h: nat, c: Cell)
    requires HasLayout(fields, cells) && h <= i < |fields| && Defaulted(fields, cells, i)
    requires !Continues(fields, h) && Defaults(fields)[h] == c
    requires h < i ==> Continues(fields, i) && Defaults(fields)[i] == Shared
    ensures HasLayout(fields, cells[h := c]) && Defaulted(fields, cells[h := c], i + 1)
  {
    LayoutKept(fields, cells, h, c);
    if h < i {
      assert cells[i] == Shared;
    }
    AgreeStep(cells, Defaults(fields), i, h, c);
    hide Continues, Defaults;
  }

  lemma LayoutKept(fields: seq<Field>, cells: seq<Cell>, h: nat, c: Cell)
    requires HasLayout(fields, cells) && h < |fields| && !Continues(fields, h)
    ensures HasLayout(fields, cells[h := c])
  {
    hide Continues;
  }

  lemma AgreeStep(cells: seq<Cell>, d: seq<Cell>, i: nat, h: nat, c: Cell)
    requires |cells| == |d| && h <= i < |d| && d[h] == c
    requires forall j | 0 <= j < i :: cells[j] == d[j]
    requires h < i ==> cells[i] == d[i]
    ensures forall j | 0 <= j < i + 1 :: cells[h := c][j] == d[j]
  {
  }

  lemma DefaultAt(fields: seq<Field>, i: nat)
    requires i < |fields|
    ensures Defaults(fields)[Home(fields, i)] == DefaultCell(fields[i])
    ensures !Continues(fields, Home(fields, i))
    ensures Continues(fields, i) ==> Defaults(fields)[i] == Shared && Home(fields, i) < i
    ensures !Continues(fields, i) ==> Home(fields, i) == i
  {
  }

  lemma AllDefaulted(fields: seq<Field>, cells: seq<Cell>)
    requires HasLayout(fields, cells) && Defaulted(fields, cells, |fields|)
    ensures cells == Defaults(fields)
  {
  }

  // ----- numbers -----

  method DecBool(stream: IStream) returns (ok: bool, n: int)
    requires stream.Valid()
    modifies stream
    ensures stream.Valid() && stream.End() == old(stream.End())
    ensures ok <==> ReadNumber(BOOL, 1, old(stream.Rest())).Ok?
    ensures ok ==> ReadNumber(BOOL, 1, old(stream.Rest())) == Ok(n, stream.Rest())
  {
    var value;
    ok, value := stream.DecodeVarint32();
    n := if value != 0 then 1 else 0;
  }

  method DecVarint(stream: IStream, f: Field) returns (ok: bool, n: int)
    requires stream.Valid()
    modifies stream
    ensures stream.Valid() && stream.End() == old(stream.End())
    ensures ok <==> ReadNumber(VARINT, f.dataSize, old(stream.Rest())).Ok?
    ensures ok ==> ReadNumber(VARINT, f.dataSize, old(stream.Rest())) == Ok(n, stream.Rest())
  {
    var value;
    n := 0;
    ok, value := stream.DecodeVarint();
    if !ok {
      return;
    }
    var svalue := SignedValue(value, f.dataSize);
    if !IntegerSize(f.dataSize) {
      return false, n;
    }
    n := CastSigned(svalue, f.dataSize);
    ok := n == svalue;
  }

  method DecUvarint(stream: IStream, f: Field) returns (ok: bool, n: int)
    requires stream.Valid()
    modifies stream
    ensures stream.Valid() && stream.End() == old(stream.End())
    ensures ok <==> ReadNumber(UVARINT, f.dataSize, old(stream.Rest())).Ok?
    ensures ok ==> ReadNumber(UVARINT, f.dataSize, old(stream.Rest())) == Ok(n, stream.Rest())
  {
    var value;
    n := 0;
    ok, value := stream.DecodeVarint();
    if !ok {
      return;
    }
    if !IntegerSize(f.dataSize) {
      return false, n;
    }
    n := CastUnsigned(value, f.dataSize);
    ok := n == value;
  }

  method DecSvarint(stream: IStream, f: Field) returns (ok: bool, n: int)
    requires stream.Valid()
    modifies stream
    ensures stream.Valid() && stream.End() == old(stream.End())
    ensures ok <==> ReadNumber(SVARINT, f.dataSize, old(stream.Rest())).Ok?
    ensures ok ==> ReadNumber(SVARINT, f.dataSize, old(stream.Rest())) == Ok(n, stream.Rest())
  {
    var value;
    n := 0;
    ok, value := stream.DecodeSvarint();
    if !ok {
      return;
    }
    if !IntegerSize(f.dataSize) {
      return false, n;
    }
    n := CastSigned(value, f.dataSize);
    ok := n == value;
  }

  /** The packable entries of PB_DECODERS. */
  method DecNumber(stream: IStream, f: Field) returns (ok: bool, n: int)
    requires stream.Valid() && f.ltype.Packable()
    modifies stream
    ensures stream.Valid() && stream.End() == old(stream.End())
    ensures ok <==> ReadNumber(f.ltype, f.dataSize, old(stream.Rest())).Ok?
    ensures ok ==> ReadNumber(f.ltype, f.dataSize, old(stream.Rest())) == Ok(n, stream.Rest())
  {
    match f.ltype
    case BOOL => ok, n := DecBool(stream);
    case VARINT => ok, n := DecVarint(stream, f);
    case UVARINT => ok, n := DecUvarint(stream, f);
    case SVARINT => ok, n := DecSvarint(stream, f);
    case FIXED32 => ok, n := stream.DecodeFixed32();
    case FIXED64 => ok, n := stream.DecodeFixed64();
  }

  // ----- buffers -----

  /** pb_dec_bytes; the array stands for the bytes member of the field. */
  method DecBytes(stream: IStream, f: Field) returns (ok: bool, bs: seq<byte>)
    requires stream.Valid() && f.ltype.BYTES? && f.dataSize >= BYTES_OFFSET
    modifies stream
    ensures stream.Valid() && stream.End() == old(stream.End())
    ensures ok <==> ReadChars(f, old(stream.Rest())).Ok?
    ensures ok ==> ReadChars(f, old(stream.Rest())) == Ok(bs, stream.Rest())
  {
    bs := [];
    var size;
    ok, size := stream.DecodeVarint32();
    if !ok {
      return;
    }
    if size > PB_SIZE_MAX {
      return false, bs;
    }
    var allocSize := size + BYTES_OFFSET;
    if size > allocSize || allocSize > f.dataSize {
      return false, bs;
    }
    var dest := new byte[f.dataSize - BYTES_OFFSET];
    ok := stream.Read(dest, size);
    bs := dest[..size];
  }

  /** pb_dec_string: the terminator is written even if the text could not be read. */
  method DecString(stream: IStream, f: Field) returns (ok: bool, bs: seq<byte>)
    requires stream.Valid() && f.ltype.STRING?
    modifies stream
    ensures stream.Valid() && stream.End() == old(stream.End())
    ensures ok <==> ReadChars(f, old(stream.Rest())).Ok?
    ensures ok ==> ReadChars(f, old(stream.Rest())) == Ok(bs, stream.Rest())
  {
    bs := [];
    var size;
    ok, size := stream.DecodeVarint32();
    if !ok {
      return;
    }
    var allocSize := (size + 1) % TWO_32;
    if allocSize < size || allocSize > f.dataSize {
      return false, bs;
    }
    assert size < f.dataSize;
    var dest := new byte[f.dataSize];
    ok := stream.Read(dest, size);
    ghost var text := dest[..size];
    dest[size] := 0;
    assert dest[..size] == text;
    bs := dest[..size];
  }

  /** pb_dec_fixed_length_bytes */
  method DecFixedLengthBytes(stream: IStream, f: Field) returns (ok: bool, bs: seq<byte>)
    requires stream.Valid() && f.ltype.FIXED_LENGTH_BYTES?
    modifies stream
    ensures stream.Valid() && stream.End() == old(stream.End())
    ensures ok <==> ReadChars(f, old(stream.Rest())).Ok?
    ensures ok ==> ReadChars(f, old(stream.Rest())) == Ok(bs, stream.Rest())
  {
    bs := [];
    var size;
    ok, size := stream.DecodeVarint32();
    if !ok {
      return;
    }
    if size > PB_SIZE_MAX {
      return false, bs;
    }
    var dest := new byte[f.dataSize];
    if size == 0 {
      forall i | 0 <= i < f.dataSize { dest[i] := 0; }
      assert dest[..] == Zeros(f.dataSize);
      return true, dest[..];
    }
    if size != f.dataSize {
      return false, bs;
    }
    ok := stream.Read(dest, f.dataSize);
    bs := dest[..f.dataSize];
  }

  // ----- values -----

  /** PB_DECODERS */
  method DecodeValue(stream: IStream, f: Field, prev: Value) returns (ok: bool, v: Value)
    requires stream.Valid() && WellFormedField(f) && ValidValue(f, prev)
    requires f.htype.REPEATED? ==> prev == DefaultValue(f)
    modifies stream
    ensures stream.Valid() && stream.End() <= old(stream.End())
    ensures ok <==> DecValue(f, prev, old(stream.Rest())).Ok?
    ensures ok ==> stream.End() == old(stream.End()) && DecValue(f, prev, old(stream.Rest())) == Ok(v, stream.Rest())
    decreases stream.bytesLeft, 1
  {
    v := prev;
    if f.ltype.Packable() {
      var n;
      ok, n := DecNumber(stream, f);
      v := Number(n);
    } else if f.ltype.SUBMESSAGE? {
      ok, v := DecodeSubmessage(stream, f, prev);
    } else {
      var bs;
      if f.ltype.BYTES? {
        ok, bs := DecBytes(stream, f);
      } else if f.ltype.STRING? {
        ok, bs := DecString(stream, f);
      } else {
        ok, bs := DecFixedLengthBytes(stream, f);
      }
      v := Chars(bs);
    }
  }

  /** pb_dec_submessage: a new array entry is initialized first, any other submessage is merged into. */
  method DecodeSubmessage(stream: IStream, f: Field, prev: Value) returns (ok: bool, v: Value)
    requires stream.Valid() && f.ltype.SUBMESSAGE? && WellFormedField(f) && ValidValue(f, prev)
    requires f.htype.REPEATED? ==> prev == DefaultValue(f)
    modifies stream
    ensures stream.Valid() && stream.End() <= old(stream.End())
    ensures ok <==> DecValue(f, prev, old(stream.Rest())).Ok?
    ensures ok ==> stream.End() == old(stream.End()) && DecValue(f, prev, old(stream.Rest())) == Ok(v, stream.Rest())
    decreases stream.bytesLeft, 0
  {
    hide ReadVarint32, ReadNumber, ReadChars, WellFormed, Valid, DecMessage;
    v := prev;
    var made, substream := stream.MakeStringSubstream();
    if !made {
      return false, v;
    }
    var dest, status;
    if f.htype.REPEATED? {
      dest := new Struct.Uninitialized(f.ptr.fields);
      status := DecodeInto(substream, f.ptr.fields, dest);
    } else {
      dest := new Struct(prev.cells);
      status := DecodeNoinit(substream, f.ptr.fields, dest);
    }
    v := Message(dest.cells);
    var closed := stream.CloseStringSubstream(substream);
    ok := closed && status;
  }

  // ----- fields -----

  /** decode_static_field */
  method DecodeStaticField(stream: IStream, wireType: nat, iter: FieldIter, dest: Struct, fixed: Counter)
    returns (ok: bool)
    requires stream.Valid() && iter.ValidInDecoder() && iter.pos < |iter.start|
    requires WellFormed(iter.start) && Valid(iter.start, dest.cells)
    requires iter.pSize.FixedCounter? <==> iter.start[iter.pos].FixedCount()
    requires iter.pSize.FixedCounter? ==>
               && dest.cells[Home(iter.start, iter.pos)].Many?
               && fixed.value == |dest.cells[Home(iter.start, iter.pos)].items|
    modifies stream, dest, fixed
    ensures stream.Valid() && stream.End() <= old(stream.End())
    ensures FieldDecoded(iter.start, iter.pos, wireType, old(dest.cells), old(stream.Rest()),
                         ok, dest.cells, stream.Rest())
    ensures ok ==> |dest.cells| == |old(dest.cells)| == |iter.start|
    ensures ok ==> UnionDecoded(iter.start[iter.pos], old(dest.cells)[Home(iter.start, iter.pos)], old(stream.Rest()),
                                dest.cells[Home(iter.start, iter.pos)])
    ensures ok ==> stream.End() == old(stream.End())
    ensures iter.pSize.FixedCounter? && ok ==>
              && dest.cells[Home(iter.start, iter.pos)].Many?
              && fixed.value == |dest.cells[Home(iter.start, iter.pos)].items|
    ensures !iter.pSize.FixedCounter? ==> fixed.value == old(fixed.value)
    decreases stream.bytesLeft, 3
  {
    var f, h := iter.Pos(), Home(iter.start, iter.pos);
    FieldFacts(iter.start, dest.cells, iter.pos);
    DefaultValueValid(f);
    var c := dest.cells[h];
    FieldByRule(f, wireType, c, stream.Rest());
    UnionIsDecoded(f, wireType, c, stream.Rest());
    hide UnionDecoded;
    hide WellFormed, WellFormedField, Valid, ValidCell, ValidValue, DecValue, DecField, Selected, DefaultValue, Home,
      RequiredBefore, DataOffset, SizeOffset;
    var v;
    match f.htype
    case REQUIRED =>
      ok, v := DecodeValue(stream, f, c.value);
      dest.cells := dest.cells[h := Single(true, v)];
    case OPTIONAL =>
      // The has flag, if there is one, is set first.
      dest.cells := dest.cells[h := Single(true, c.value)];
      ok, v := DecodeValue(stream, f, c.value);
      dest.cells := dest.cells[h := Single(true, v)];
    case REPEATED =>
      ok := DecodeRepeated(stream, wireType, f, h, dest, iter.pSize.FixedCounter?, fixed);
    case ONEOF =>
      var prev := Selected(f, c);
      dest.cells := dest.cells[h := OneOf(f.tag, prev)];
      ok, v := DecodeValue(stream, f, prev);
      dest.cells := dest.cells[h := OneOf(f.tag, v)];
  }

  /** The repeated case of decode_static_field: a packed block, or one more element. */
  method DecodeRepeated(stream: IStream, wireType: nat, f: Field, h: nat, dest: Struct,
                        useCounter: bool, fixed: Counter)
    returns (ok: bool)
    requires stream.Valid() && f.htype.REPEATED? && WellFormedField(f)
    requires h < |dest.cells| && ValidCell(f, dest.cells[h])
    requires useCounter ==> fixed.value == |dest.cells[h].items|
    modifies stream, dest, fixed
    ensures stream.Valid() && stream.End() <= old(stream.End())
    ensures match DecField(f, wireType, old(dest.cells)[h], old(stream.Rest()))
            case Ok(c, rest) =>
              ok && dest.cells == old(dest.cells)[h := c] && stream.Rest() == rest && stream.End() == old(stream.End())
            case _ => !ok
    ensures |dest.cells| == |old(dest.cells)| && dest.cells[h].Many?
    ensures ok && useCounter ==> fixed.value == |dest.cells[h].items|
    ensures !useCounter ==> fixed.value == old(fixed.value)
    decreases stream.bytesLeft, 2
  {
    var c := dest.cells[h];
    if wireType == WT_STRING && f.ltype.Packable() {
      ok := DecodePacked(stream, f, h, dest, useCounter, fixed);
    } else {
      FieldByRule(f, wireType, c, stream.Rest());
      hide WellFormedField, ValidCell, ValidValue, DecValue, DecField;
      var size := if useCounter then fixed.value else |c.items|;
      if useCounter {
        fixed.value := fixed.value + 1;
      }
      if size >= f.arraySize {
        return false;
      }
      var v;
      ok, v := DecodeValue(stream, f, DefaultValue(f));
      dest.cells := dest.cells[h := Many(c.items + [v])];
    }
  }

  /** The value a field's decoder starts from, outside packed blocks. */
  function Before(f: Field, c: Cell): Value
    requires !f.htype.REPEATED? && !f.htype.ONEOF? ==> c.Single?
  {
    match f.htype
    case REPEATED => DefaultValue(f)
    case ONEOF => Selected(f, c)
    case _ => c.value
  }

  /** DecField outside packed blocks, rule by rule. */
  lemma FieldByRule(f: Field, wireType: nat, c: Cell, input: seq<byte>)
    requires WellFormedField(f) && ValidCell(f, c)
    ensures f.htype.REPEATED? ==> c.Many?
    ensures f.htype.REQUIRED? || f.htype.OPTIONAL? ==> c.Single?
    ensures ValidValue(f, Before(f, c))
    ensures !(f.htype.REPEATED? && wireType == WT_STRING && f.ltype.Packable()) ==>
              var d, v := DecField(f, wireType, c, input), DecValue(f, Before(f, c), input);
              && (f.htype.REPEATED? && |c.items| >= f.arraySize ==> !d.Ok?)
              && (!(f.htype.REPEATED? && |c.items| >= f.arraySize) ==>
                    (d.Ok? <==> v.Ok?) && (d.Ok? ==> d == Ok(After(f, c, v.value), v.rest)))
  {
    hide DecValue, WellFormedField;
    DefaultValueValid(f);
  }

  function After(f: Field, c: Cell, v: Value): Cell {
    match f.htype
    case REPEATED => if c.Many? then Many(c.items + [v]) else c
    case ONEOF => OneOf(f.tag, v)
    case _ => Single(true, v)
  }

  /** The packed branch of decode_static_field: items are appended one by one, as long as there is room. */
  method DecodePacked(stream: IStream, f: Field, h: nat, dest: Struct, useCounter: bool,
        fixed: Counter) returns (ok: bool)
    requires stream.Valid() && f.ltype.Packable() && f.htype.REPEATED? && WellFormedField(f)
    requires h < |dest.cells| && ValidCell(f, dest.cells[h])
    requires useCounter ==> fixed.value == |dest.cells[h].items|
    modifies stream, dest, fixed
    ensures stream.Valid() && stream.End() <= old(stream.End())
    ensures match DecField(f, WT_STRING, old(dest.cells)[h], old(stream.Rest()))
            case Ok(c, rest) =>
              ok && dest.cells == old(dest.cells)[h := c] && stream.Rest() == rest && stream.End() == old(stream.End())
            case _ => !ok
    ensures |dest.cells| == |old(dest.cells)| && dest.cells[h].Many?
    ensures useCounter ==> fixed.value == |dest.cells[h].items|
    ensures !useCounter ==> fixed.value == old(fixed.value)
  {
    hide ReadVarint32, ReadNumber, ValidNumber;
    var status := true;
    var made, substream := stream.MakeStringSubstream();
    if !made {
      return false;
    }
    ghost var before, body := dest.cells[h].items, substream.Rest();
    assert ReadDelimited(old(stream.Rest())).Ok?;
    label afterOpening:
    var size := if useCounter then fixed.value else |dest.cells[h].items|;
    while substream.bytesLeft > 0 && size < f.arraySize
      invariant substream.Valid() && substream.buf == stream.buf && substream != stream
      invariant substream.End() == old@afterOpening(substream.End())
      invariant stream.state == old@afterOpening(stream.state) && stream.bytesLeft == old@afterOpening(stream.bytesLeft)
      invariant |dest.cells| == |old(dest.cells)| && ValidCell(f, dest.cells[h])
      invariant dest.cells == old(dest.cells)[h := Many(dest.cells[h].items)]
      invariant size == |dest.cells[h].items|
      invariant if useCounter then fixed.value == size else fixed.value == old(fixed.value)
      invariant ReadPacked(f, before, body) == ReadPacked(f, dest.cells[h].items, substream.Rest())
      decreases substream.bytesLeft
    {
      ReadNumberValid(f.ltype, f.dataSize, substream.Rest());
      var n;
      status, n := DecNumber(substream, f);
      if !status {
        break;
      }
      dest.cells := dest.cells[h := Many(dest.cells[h].items + [Number(n)])];
      size := size + 1;
      if useCounter {
        fixed.value := size;
      }
    }
    if substream.bytesLeft != 0 {
      return false;
    }
    var closed := stream.CloseStringSubstream(substream);
    ok := closed && status;
  }

  /** The outcome of decoding one field is that of DecField on its cell; no other cell changes. */
  ghost predicate FieldDecoded(fields: seq<Field>, i: nat, wireType: nat, before: seq<Cell>, input: seq<byte>,
                               ok: bool, after: seq<Cell>, rest: seq<byte>)
    requires WellFormed(fields) && Valid(fields, before) && i < |fields|
  {
    assert WellFormedField(fields[i]) && ValidCell(fields[i], before[Home(fields, i)]);
    match DecField(fields[i], wireType, before[Home(fields, i)], input)
    case Ok(c, r) => ok && after == before[Home(fields, i) := c] && rest == r
    case _ => !ok
  }

  // ----- messages -----

  /** The loop state of pb_decode_noinit stands for p. */
  ghost predicate Represents(p: Progress, fields: seq<Field>, cells: seq<Cell>, fixedCountField: Option<nat>,
                             fixedCountSize: nat, words: seq<uint32>, bits: seq<bool>)
  {
    && ValidProgress(fields, p) && !p.stopped && p.cells == cells
    && p.current == fixedCountField
    && (p.current.Some? ==> FixedCell(fields, cells, p.current.value, fixedCountSize))
    && (fields != [] ==> Tracks(fields, p.seen, bits) && Holds(words, bits))
  }

  /** The fixed-count array of field i has received n elements. */
  ghost predicate FixedCell(fields: seq<Field>, cells: seq<Cell>, i: nat, n: nat) {
    i < |fields| == |cells| && cells[Home(fields, i)].Many? && |cells[Home(fields, i)].items| == n
  }

  /** Counts the required fields by running the iterator to the wrap from wherever it stopped. */
  method CountRequired(iter: FieldIter) returns (count: nat)
    requires iter.ValidInDecoder() && forall i | 0 <= i < |iter.start| :: iter.start[i].tag != 0
    modifies iter
    ensures count == RequiredBefore(iter.start, |iter.start|)
  {
    var lastType;
    while true
      invariant iter.ValidInDecoder()
      decreases |iter.start| - iter.pos
    {
      count := iter.requiredFieldIndex;
      lastType := iter.Pos().htype;
      ghost var i := iter.pos;
      var more := iter.Next();
      if !more {
        assert iter.start != [] ==> i + 1 == |iter.start|;
        break;
      }
    }
    if lastType.REQUIRED? && iter.Pos().tag != 0 {
      count := count + 1;
    }
  }

  /** What pb_decode_noinit does before decoding a record of the field found: it keeps track of the
    * fixed-count array being received, and of the required fields seen. */
  method NoteField(iter: FieldIter, dest: Struct, fieldsSeen: array<uint32>, fixedCountField: Option<nat>,
                   fixedCount: Counter, ghost p: Progress, ghost bits: seq<bool>)
    returns (ok: bool, newFixedCountField: Option<nat>, ghost q: Progress, ghost newBits: seq<bool>)
    requires iter.ValidInDecoder() && WellFormed(iter.start) && iter.pos < |iter.start| && fieldsSeen.Length == 2
    requires Represents(p, iter.start, dest.cells, fixedCountField, fixedCount.value, fieldsSeen[..], bits)
    requires iter.pSize.FixedCounter? ==> fixedCountField == Some(iter.pos)
    modifies iter, dest, fieldsSeen, fixedCount
    ensures iter.ValidInDecoder() && iter.pos == old(iter.pos)
    ensures ok <==> Enter(iter.start, p, iter.pos).Some?
    ensures ok ==> Enter(iter.start, p, iter.pos) == Some(q)
    ensures ok ==> Represents(q, iter.start, dest.cells, newFixedCountField, fixedCount.value, fieldsSeen[..], newBits)
    ensures ok ==> (iter.pSize.FixedCounter? <==> iter.start[iter.pos].FixedCount())
    ensures ok && iter.pSize.FixedCounter? ==> newFixedCountField == Some(iter.pos)
  {
    ghost var fields, i := iter.start, iter.pos;
    var f := iter.Pos();
    ok, newFixedCountField, q, newBits := true, fixedCountField, p, bits;
    HasFlag(fields, i);
    FieldFacts(fields, p.cells, i);
    hide WellFormed, WellFormedField, Valid, ValidCell, Tracks, Holds, Home, DataOffset, SizeOffset, RequiredBefore;
    if f.htype.REPEATED? && iter.pSize == InStruct(iter.pData) {
      if fixedCountField != Some(iter.pos) {
        if fixedCountField.Some? && fixedCount.value != iter.start[fixedCountField.value].arraySize {
          ok := false;
          return;
        }
        newFixedCountField := Some(iter.pos);
        fixedCount.value := 0;
        // Nothing of the array has been received since.
        dest.cells := dest.cells[Home(iter.start, iter.pos) := Many([])];
        q := p.(cells := dest.cells, current := newFixedCountField);
      }
      iter.pSize := FixedCounter;
    }
    if f.htype.REQUIRED? {
      if iter.requiredFieldIndex < MAX_REQUIRED_FIELDS {
        NoteSeen(fieldsSeen, iter.requiredFieldIndex, bits);
        newBits := bits[iter.requiredFieldIndex := true];
      }
      TracksMore(fields, p.seen, bits, i);
      q := p.(seen := p.seen + {i});
    }
  }

  /** Decoding a field keeps the loop state in step. */
  lemma StillRepresents(q: Progress, fields: seq<Field>, i: nat, cells: seq<Cell>, fixedCountField: Option<nat>,
                        before: nat, after: nat, words: seq<uint32>, bits: seq<bool>, c: Cell)
    requires WellFormed(fields) && i < |fields|
    requires Represents(q, fields, cells, fixedCountField, before, words, bits)
    requires ValidProgress(fields, q.(cells := cells[Home(fields, i) := c]))
    requires fields[i].FixedCount() ==> fixedCountField == Some(i) && c.Many? && after == |c.items|
    requires !fields[i].FixedCount() ==> after == before
    ensures Represents(q.(cells := cells[Home(fields, i) := c]), fields, cells[Home(fields, i) := c], fixedCountField,
          after, words, bits)
  {
    hide WellFormed, Valid, Tracks, Holds;
    if q.current.Some? && q.current.value != i {
      assert Home(fields, q.current.value) == q.current.value;
      assert Home(fields, i) != q.current.value;
    }
  }

  /** The loop body of pb_decode_noinit after the tag: find the field and decode into it, or skip. */
  method DecodeRecord(stream: IStream, wireType: nat, tag: nat, iter: FieldIter, dest: Struct,
                      fieldsSeen: array<uint32>, fixedCountField: Option<nat>, fixedCount: Counter,
                      ghost p: Progress, ghost bits: seq<bool>)
    returns (ok: bool, newFixedCountField: Option<nat>, ghost q: Progress, ghost newBits: seq<bool>)
    requires stream.Valid() && iter.ValidInDecoder() && WellFormed(iter.start) && fieldsSeen.Length == 2
    requires Represents(p, iter.start, dest.cells, fixedCountField, fixedCount.value, fieldsSeen[..], bits)
    requires iter.pSize.FixedCounter? ==> fixedCountField == Some(iter.pos)
    modifies stream, iter, dest, fieldsSeen, fixedCount
    ensures stream.Valid() && stream.End() <= old(stream.End()) && iter.ValidInDecoder()
    ensures ok <==> DecRecord(iter.start, p, Tag.Tag(tag, wireType), old(stream.Rest())).Ok?
    ensures ok ==> DecRecord(iter.start, p, Tag.Tag(tag, wireType), old(stream.Rest())) == Ok(q, stream.Rest())
    ensures ok ==> stream.End() == old(stream.End())
    ensures ok ==> Represents(q, iter.start, dest.cells, newFixedCountField, fixedCount.value, fieldsSeen[..], newBits)
    ensures ok && iter.pSize.FixedCounter? ==> newFixedCountField == Some(iter.pos)
    decreases stream.bytesLeft, 5
  {
    ghost var fields, payload := iter.start, stream.Rest();
    NonzeroTags(fields);
    RepresentsFacts(p, fields, dest.cells, fixedCountField, fixedCount.value, fieldsSeen[..], bits);
    hide WellFormed, WellFormedField, Valid, ValidCell, ValidProgress, DecRecord, DecField, Enter, Tracks, Holds,
      Home, DataOffset, SizeOffset, RequiredBefore, SkipField, SkipBool, ReadNumber, ReadVarint32;
    newFixedCountField, q, newBits := fixedCountField, p, bits;
    var found := iter.Find(tag);
    if !found {
      UnknownSkipped(fields, p, Tag.Tag(tag, wireType), payload);
      ok := stream.SkipField(wireType);
    } else if iter.pos == |iter.start| {
      // The terminator of an empty list, taken for a required bool.
      UnknownSkipped(fields, p, Tag.Tag(tag, wireType), payload);
      fieldsSeen[0] := 1;
      var unused;
      ok, unused := DecBool(stream);
    } else {
      ok, newFixedCountField, q, newBits :=
        DecodeKnownField(stream, wireType, iter, dest, fieldsSeen, fixedCountField, fixedCount, p, bits);
    }
  }

  /** The same for the field the iterator has found. */
  method DecodeKnownField(stream: IStream, wireType: nat, iter: FieldIter, dest: Struct, fieldsSeen: array<uint32>,
                          fixedCountField: Option<nat>, fixedCount: Counter, ghost p: Progress, ghost bits: seq<bool>)
    returns (ok: bool, newFixedCountField: Option<nat>, ghost q: Progress, ghost newBits: seq<bool>)
    requires stream.Valid() && iter.ValidInDecoder() && WellFormed(iter.start) && iter.pos < |iter.start|
    requires fieldsSeen.Length == 2
    requires Represents(p, iter.start, dest.cells, fixedCountField, fixedCount.value, fieldsSeen[..], bits)
    requires iter.pSize.FixedCounter? ==> fixedCountField == Some(iter.pos)
    modifies stream, iter, dest, fieldsSeen, fixedCount
    ensures stream.Valid() && stream.End() <= old(stream.End()) && iter.ValidInDecoder()
    ensures ok <==> DecRecord(iter.start, p, Tag.Tag(old(iter.Pos()).tag, wireType), old(stream.Rest())).Ok?
    ensures ok ==>
              DecRecord(iter.start, p, Tag.Tag(old(iter.Pos()).tag, wireType), old(stream.Rest()))
              == Ok(q, stream.Rest())
    ensures ok ==> stream.End() == old(stream.End())
    ensures ok ==> Represents(q, iter.start, dest.cells, newFixedCountField, fixedCount.value, fieldsSeen[..], newBits)
    ensures ok && iter.pSize.FixedCounter? ==> newFixedCountField == Some(iter.pos)
    decreases stream.bytesLeft, 4
  {
    ghost var fields, payload := iter.start, stream.Rest();
    RepresentsFacts(p, fields, dest.cells, fixedCountField, fixedCount.value, fieldsSeen[..], bits);
    KnownField(fields, p, iter.pos, Tag.Tag(iter.Pos().tag, wireType), payload);
    hide WellFormed, WellFormedField, Valid, ValidCell, DecRecord, DecField, Enter, Tracks, Holds, Home, DataOffset,
      SizeOffset, RequiredBefore;
    ok, newFixedCountField, q, newBits := NoteField(iter, dest, fieldsSeen, fixedCountField, fixedCount, p, bits);
    if ok {
      ghost var entered, before, size := q, dest.cells, fixedCount.value;
      ok := DecodeStaticField(stream, wireType, iter, dest, fixedCount);
      if ok {
        q := entered.(cells := dest.cells);
        StillRepresents(entered, fields, iter.pos, before, newFixedCountField, size, fixedCount.value,
                        fieldsSeen[..], newBits, dest.cells[Home(fields, iter.pos)]);
      }
    }
  }

  lemma NonzeroTags(fields: seq<Field>)
    requires WellFormed(fields)
    ensures forall i | 0 <= i < |fields| :: fields[i].tag != 0
  {
    assert forall i | 0 <= i < |fields| :: WellFormedField(fields[i]);
  }

  /** A record whose field is found. */
  lemma KnownField(fields: seq<Field>, p: Progress, i: nat, tag: Tag, payload: seq<byte>)
    requires WellFormed(fields) && ValidProgress(fields, p) && i < |fields| && tag.Tag? && fields[i].tag == tag.number
    ensures Enter(fields, p, i).None? ==> !DecRecord(fields, p, tag, payload).Ok?
    ensures Enter(fields, p, i).Some? ==>
              var q, h := Enter(fields, p, i).value, Home(fields, i);
              && WellFormedField(fields[i]) && ValidCell(fields[i], q.cells[h])
              && var d := DecField(fields[i], tag.wireType, q.cells[h], payload);
                 && (d.Ok? ==> DecRecord(fields, p, tag, payload) == Ok(q.(cells := q.cells[h := d.value]), d.rest))
                 && (!d.Ok? ==> !DecRecord(fields, p, tag, payload).Ok?)
  {
    FindUnique(fields, i);
    if Enter(fields, p, i).Some? {
      FieldFacts(fields, Enter(fields, p, i).value.cells, i);
    }
    hide Enter, DecField, WellFormedField, ValidCell, Home;
  }

  /** The loop of pb_decode_noinit. */
  method DecodeLoop(stream: IStream, iter: FieldIter, dest: Struct, fieldsSeen: array<uint32>, fixedCount: Counter)
    returns (ok: bool, fixedCountField: Option<nat>, ghost p: Progress, ghost bits: seq<bool>)
    requires stream.Valid() && iter.Valid() && WellFormed(iter.start) && Valid(iter.start, dest.cells)
    requires fieldsSeen.Length == 2 && fieldsSeen[..] == [0, 0] && fixedCount.value == 0
    modifies stream, iter, dest, fieldsSeen, fixedCount
    ensures stream.Valid() && stream.End() <= old(stream.End()) && iter.ValidInDecoder()
    ensures ok <==> DecRecords(iter.start, Start(old(dest.cells)), old(stream.Rest())).Ok?
    ensures ok ==> stream.End() == old(stream.End())
    ensures ok ==> Represents(p, iter.start, dest.cells, fixedCountField, fixedCount.value, fieldsSeen[..], bits)
    ensures ok ==> DecRecords(iter.start, Start(old(dest.cells)), old(stream.Rest())).rest == stream.Rest()
    ensures ok ==> DecRecords(iter.start, Start(old(dest.cells)), old(stream.Rest())).value.(stopped := false) == p
    decreases stream.bytesLeft, 6
  {
    ghost var fields, before, input := iter.start, dest.cells, stream.Rest();
    ok, bits, fixedCountField := true, seq(MAX_REQUIRED_FIELDS, _ => false), None;
    p := Start(before);
    InitiallyRepresents(fields, before, fieldsSeen[..]);
    ghost var result := DecRecords(fields, p, input);
    hide *;
    while stream.bytesLeft != 0
      invariant stream.Valid() && stream.End() == old(stream.End())
      invariant iter.ValidInDecoder()
      invariant Represents(p, fields, dest.cells, fixedCountField, fixedCount.value, fieldsSeen[..], bits)
      invariant iter.pSize.FixedCounter? ==> fixedCountField == Some(iter.pos)
      invariant result == DecRecords(fields, p, stream.Rest())
      decreases stream.bytesLeft
    {
      RepresentsFacts(p, fields, dest.cells, fixedCountField, fixedCount.value, fieldsSeen[..], bits);
      LoopUnfolds(fields, p, stream.Rest());
      ghost var cells, words, record := dest.cells, fieldsSeen[..], stream.Rest();
      var decoded, wireType, tag, eof := stream.DecodeTag();
      assert dest.cells == cells && fieldsSeen[..] == words;
      if !decoded {
        ok := eof;
        assert if ok then result == Ok(p.(stopped := true), stream.Rest()) else !result.Ok?;
        return;
      }
      assert ReadTag(record) == Ok(Tag.Tag(tag, wireType), stream.Rest());
      ok, fixedCountField, p, bits :=
        DecodeRecord(stream, wireType, tag, iter, dest, fieldsSeen, fixedCountField, fixedCount, p, bits);
      if !ok {
        return;
      }
    }
    RepresentsFacts(p, fields, dest.cells, fixedCountField, fixedCount.value, fieldsSeen[..], bits);
    LoopEnds(fields, p);
  }

  /** pb_decode_noinit */
  method DecodeNoinit(stream: IStream, fields: seq<Field>, dest: Struct) returns (ok: bool)
    requires stream.Valid() && WellFormed(fields) && Valid(fields, dest.cells)
    modifies stream, dest
    ensures stream.Valid() && stream.End() <= old(stream.End())
    ensures ok <==> DecMessage(fields, old(dest.cells), old(stream.Rest())).Some?
    ensures ok ==> DecMessage(fields, old(dest.cells), old(stream.Rest())) == Some(dest.cells)
    ensures ok ==> stream.End() == old(stream.End())
    ensures ok ==> stream.Rest() == DecRecords(fields, Start(old(dest.cells)), old(stream.Rest())).rest
    decreases stream.bytesLeft, 7
  {
    NonzeroTags(fields);
    MessageOutcome(fields, dest.cells, stream.Rest());
    hide DecMessage, WellFormed, Valid, DecRecords, Tracks, Holds, DataOffset, SizeOffset, RequiredBefore, Finished;
    var fieldsSeen := new uint32[2] [0, 0];
    var fixedCount := new Counter();
    var iter := new FieldIter(fields);
    var fixedCountField;
    ghost var p, bits;
    ok, fixedCountField, p, bits := DecodeLoop(stream, iter, dest, fieldsSeen, fixedCount);
    if ok {
      ok := CheckFinished(iter, dest, fieldsSeen, fixedCountField, fixedCount, p, bits);
      SameFinish(fields, DecRecords(fields, Start(old(dest.cells)), old(stream.Rest())).value);
    }
  }

  lemma RepresentsFacts(p: Progress, fields: seq<Field>, cells: seq<Cell>, fixedCountField: Option<nat>,
                        fixedCountSize: nat, words: seq<uint32>, bits: seq<bool>)
    requires Represents(p, fields, cells, fixedCountField, fixedCountSize, words, bits)
    ensures ValidProgress(fields, p) && !p.stopped && p.cells == cells && |cells| == |fields|
  {
  }

  lemma InitiallyRepresents(fields: seq<Field>, cells: seq<Cell>, words: seq<uint32>)
    requires Valid(fields, cells) && words == [0, 0]
    ensures Represents(Start(cells), fields, cells, None, 0, words, seq(MAX_REQUIRED_FIELDS, _ => false))
    ensures ValidProgress(fields, Start(cells))
  {
    hide Tracks, Holds, Valid;
    NothingSeen(fields, words);
  }

  lemma MessageOutcome(fields: seq<Field>, cells: seq<Cell>, input: seq<byte>)
    requires WellFormed(fields) && Valid(fields, cells)
    ensures var r := DecRecords(fields, Start(cells), input);
            && (r.Ok? ==> DecMessage(fields, cells, input) == if Finished(fields, r.value) then Some(r.value.cells)
                  else None)
            && (!r.Ok? ==> DecMessage(fields, cells, input) == None)
  {
    hide DecRecords, Finished;
  }

  lemma SameFinish(fields: seq<Field>, p: Progress)
    requires |p.cells| == |fields|
    ensures Finished(fields, p.(stopped := false)) == Finished(fields, p)
  {
  }

  lemma LoopEnds(fields: seq<Field>, p: Progress)
    requires WellFormed(fields) && ValidProgress(fields, p)
    ensures DecRecords(fields, p, []) == Ok(p, [])
  {
  }

  /** The checks of pb_decode_noinit after its loop. */
  method CheckFinished(iter: FieldIter, dest: Struct, fieldsSeen: array<uint32>, fixedCountField: Option<nat>,
                       fixedCount: Counter, ghost p: Progress, ghost bits: seq<bool>) returns (ok: bool)
    requires iter.ValidInDecoder() && WellFormed(iter.start) && fieldsSeen.Length == 2
    requires Represents(p, iter.start, dest.cells, fixedCountField, fixedCount.value, fieldsSeen[..], bits)
    modifies iter
    ensures ok <==> Finished(iter.start, p)
  {
    NonzeroTags(iter.start);
    ghost var fields := iter.start;
    hide WellFormed, Valid, Tracks, Holds, Home, DataOffset, SizeOffset, RequiredSeen;
    if fixedCountField.Some? && fixedCount.value != iter.start[fixedCountField.value].arraySize {
      return false;
    }
    var reqFieldCount := CountRequired(iter);
    if fields == [] {
      NoneRequired(p.seen);
      assert reqFieldCount == 0;
    } else {
      TracksAll(fields, p.seen, bits);
    }
    if reqFieldCount > MAX_REQUIRED_FIELDS {
      reqFieldCount := MAX_REQUIRED_FIELDS;
    }
    if reqFieldCount > 0 {
      ok := CheckSeen(fieldsSeen, reqFieldCount, bits);
    } else {
      ok := true;
    }
  }

  lemma NoneRequired(seen: set<nat>)
    ensures RequiredSeen([], seen)
  {
  }

  /** What the next turn of the loop does. */
  lemma LoopUnfolds(fields: seq<Field>, p: Progress, input: seq<byte>)
    requires WellFormed(fields) && ValidProgress(fields, p) && !p.stopped && input != []
    ensures !ReadTag(input).Ok? ==> !DecRecords(fields, p, input).Ok?
    ensures ReadTag(input).Ok? && ReadTag(input).value.End? ==>
              DecRecords(fields, p, input) == Ok(p.(stopped := true), ReadTag(input).rest)
    ensures ReadTag(input).Ok? && ReadTag(input).value.Tag? ==>
              var r := DecRecord(fields, p, ReadTag(input).value, ReadTag(input).rest);
              && (r.Ok? ==> DecRecords(fields, p, input) == DecRecords(fields, r.value, r.rest))
              && (!r.Ok? ==> !DecRecords(fields, p, input).Ok?)
  {
    hide DecRecord, ReadTag;
  }

  /** A record whose field is not found. */
  lemma UnknownSkipped(fields: seq<Field>, p: Progress, tag: Tag, payload: seq<byte>)
    requires WellFormed(fields) && ValidProgress(fields, p) && tag.Tag?
    requires forall i | 0 <= i < |fields| :: fields[i].tag != tag.number
    ensures var skipped :=
              if fields == [] && tag.number == 0 then SkipBool(payload) else Decode.SkipField(tag.wireType, payload);
            && (skipped.Ok? ==> DecRecord(fields, p, tag, payload) == Ok(p, skipped.rest))
            && (!skipped.Ok? ==> !DecRecord(fields, p, tag, payload).Ok?)
  {
    hide Enter, DecField, ReadVarint32;
  }

  lemma NothingSeen(fields: seq<Field>, words: seq<uint32>)
    requires words == [0, 0]
    ensures var bits := seq(MAX_REQUIRED_FIELDS, _ => false);
            Tracks(fields, {}, bits) && Holds(words, bits)
  {
    var bits := seq(MAX_REQUIRED_FIELDS, _ => false);
    TracksNothing(fields);
    LowBits(bits[..32], 0);
    LowBits(bits[32..], 0);
  }

  /** pb_decode */
  method DecodeInto(stream: IStream, fields: seq<Field>, dest: Struct) returns (ok: bool)
    requires stream.Valid() && WellFormed(fields) && HasLayout(fields, dest.cells)
    modifies stream, dest
    ensures stream.Valid() && stream.End() <= old(stream.End())
    ensures ok <==> DecFresh(fields, old(stream.Rest())).Some?
    ensures ok ==> DecFresh(fields, old(stream.Rest())) == Some(dest.cells)
    ensures ok ==> stream.End() == old(stream.End())
    decreases stream.bytesLeft, 8
  {
    DefaultsValid(fields);
    MessageSetToDefaults(fields, dest);
    ok := DecodeNoinit(stream, fields, dest);
  }
}
