/** What pb_encode writes, as a function of the struct. */
module Encode {
  import opened Varints
  import opened Schema
  import opened Scalars

  // ----- wire types -----

  const WT_VARINT := 0
  const WT_64BIT := 1
  const WT_STRING := 2
  const WT_32BIT := 5

  function WireType(ltype: LType): nat {
    match ltype
    case BOOL | VARINT | UVARINT | SVARINT => WT_VARINT
    case FIXED32 => WT_32BIT
    case FIXED64 => WT_64BIT
    case BYTES | STRING | SUBMESSAGE | FIXED_LENGTH_BYTES => WT_STRING
  }

  function EncTag(wireType: nat, tag: nat): (bs: seq<byte>)
    ensures |bs| >= 1
  {
    EncVarint((tag * 8 + wireType) % TWO_64)
  }

  function EncDelimited(body: seq<byte>): (bs: seq<byte>)
    ensures |bs| > |body|
  {
    EncVarint(|body|) + body
  }

  // ----- implicit presence -----

  /** The bytes in front of the first NUL, if there is one among the first max bytes. */
  function CString(bs: seq<byte>, max: nat): (s: seq<byte>)
    ensures |s| <= max && s <= bs && 0 !in s
    ensures |s| < max && |s| < |bs| ==> bs[|s|] == 0
  {
    if bs == [] || max == 0 || bs[0] == 0 then [] else [bs[0]] + CString(bs[1..], max - 1)
  }

  predicate IsZero(f: Field, v: Value)
    decreases v
  {
    match v
    case Number(n) => n == 0
    case Chars(bs) => (
      match f.ltype
      case BYTES => |bs| == 0
      case STRING => bs == [] || bs[0] == 0
      case _ => f.dataSize == 0)
    case Message(cells) => f.ptr.Submessage? ==> AllDefault(f.ptr.fields, cells)
  }

  /** pb_check_proto3_default_value */
  predicate IsDefault(f: Field, c: Cell)
    decreases c
  {
    match c
    case Single(has, v) => f.htype.OPTIONAL? && if f.sizeOffset != 0 then !has else IsZero(f, v)
    case Many(items) => f.sizeOffset != 0 && |items| == 0
    case NoneOf => true
    case OneOf(which, v) => false
    case Shared => false
  }

  predicate AllDefault(fields: seq<Field>, cells: seq<Cell>)
    decreases cells
  {
    |cells| == |fields| && forall i {:trigger Home(fields, i)} | 0 <= i < |fields| ::
          IsDefault(fields[i], cells[Home(fields, i)])
  }

  // ----- the bytes -----

  function EncValue(f: Field, v: Value): seq<byte>
    decreases v, 0
  {
    match v
    case Number(n) => if f.ltype.Packable() then EncNumber(f.ltype, n) else []
    case Chars(bs) => if f.ltype.STRING? then EncDelimited(CString(bs, f.dataSize)) else EncDelimited(bs)
    case Message(cells) =>
      if f.ptr.Submessage? && |cells| == |f.ptr.fields| then EncDelimited(EncFrom(f.ptr.fields, cells, 0)) else []
  }

  /** The elements of a packed array, back to back. */
  function EncPacked(f: Field, items: seq<Value>): seq<byte>
    decreases items, 0
  {
    if items == [] then [] else EncValue(f, items[0]) + EncPacked(f, items[1..])
  }

  /** One record for each element. */
  function EncRecords(f: Field, items: seq<Value>): seq<byte>
    decreases items, 0
  {
    if items == [] then []
    else EncTag(WireType(f.ltype), f.tag) + EncValue(f, items[0]) + EncRecords(f, items[1..])
  }

  function EncArray(f: Field, items: seq<Value>): seq<byte>
    decreases items, 1
  {
    if items == [] then []
    else if f.ltype.Packable() then EncTag(WT_STRING, f.tag) + EncDelimited(EncPacked(f, items))
    else EncRecords(f, items)
  }

  /** Whether a field is written at all. */
  predicate Written(f: Field, c: Cell) {
    match c
    case Single(_, _) => !IsDefault(f, c)
    case Many(items) => items != []
    case OneOf(which, _) => which == f.tag
    case _ => false
  }

  function EncField(f: Field, c: Cell): seq<byte>
    decreases c, 2
  {
    if !Written(f, c) then []
    else if c.Many? then EncArray(f, c.items)
    else EncTag(WireType(f.ltype), f.tag) + EncValue(f, c.value)
  }

  function EncFrom(fields: seq<Field>, cells: seq<Cell>, i: nat): seq<byte>
    requires i <= |fields| == |cells|
    decreases cells, |fields| - i
  {
    if i == |fields| then [] else EncField(fields[i], cells[Home(fields, i)]) + EncFrom(fields, cells, i + 1)
  }

  function EncMessage(fields: seq<Field>, cells: seq<Cell>): seq<byte>
    requires |fields| == |cells|
  {
    EncFrom(fields, cells, 0)
  }

  // ----- when it succeeds, given room -----

  /** A struct whose cells do not have the shape their descriptors call for cannot be encoded either. */
  predicate EncodableValue(f: Field, v: Value)
    decreases v
  {
    match f.ltype
    case BYTES => v.Chars? && |v.bs| + BYTES_OFFSET <= f.dataSize
    case STRING => v.Chars?
    case FIXED_LENGTH_BYTES => v.Chars? && |v.bs| == f.dataSize
    case SUBMESSAGE => v.Message? && f.ptr.Submessage? && Encodable(f.ptr.fields, v.cells)
    case VARINT | UVARINT | SVARINT => v.Number? && IntegerSize(f.dataSize)
    case BOOL | FIXED32 | FIXED64 => v.Number?
  }

  predicate EncodableCell(f: Field, c: Cell)
    decreases c
  {
    match f.htype
    case REQUIRED => c.Single? && EncodableValue(f, c.value)
    case OPTIONAL => c.Single? && (Written(f, c) ==> EncodableValue(f, c.value))
    case REPEATED =>
      && c.Many? && |c.items| <= f.arraySize && (f.FixedCount() ==> |c.items| == f.arraySize)
      && forall k | 0 <= k < |c.items| :: EncodableValue(f, c.items[k])
    case ONEOF => c.NoneOf? || (c.OneOf? && (Written(f, c) ==> EncodableValue(f, c.value)))
  }

  predicate Encodable(fields: seq<Field>, cells: seq<Cell>)
    decreases cells
  {
    |cells| == |fields| && forall i {:trigger Home(fields, i)} | 0 <= i < |fields| ::
          EncodableCell(fields[i], cells[Home(fields, i)])
  }

  // ----- structs that match their descriptors -----

  /** The kinds of the cells and values are those their descriptors call for. Counts and sizes may
    * still be too large. */
  ghost predicate TypedValue(f: Field, v: Value)
    decreases f, 0
  {
    match f.ltype
    case BYTES | STRING => v.Chars?
    case FIXED_LENGTH_BYTES => v.Chars? && |v.bs| == f.dataSize
    case SUBMESSAGE => v.Message? && f.ptr.Submessage? && Typed(f.ptr.fields, v.cells)
    case _ => v.Number?
  }

  ghost predicate TypedCell(f: Field, c: Cell)
    decreases f, 1
  {
    match f.htype
    case REQUIRED | OPTIONAL => c.Single? && TypedValue(f, c.value)
    case REPEATED =>
      && c.Many? && (f.FixedCount() ==> |c.items| == f.arraySize)
      && forall k | 0 <= k < |c.items| :: TypedValue(f, c.items[k])
    case ONEOF => c.NoneOf? || (c.OneOf? && (c.which == f.tag ==> TypedValue(f, c.value)))
  }

  ghost predicate Typed(fields: seq<Field>, cells: seq<Cell>)
    decreases fields
  {
    && |cells| == |fields|
    && forall i {:trigger Home(fields, i)} | 0 <= i < |fields| :: TypedCell(fields[i], cells[Home(fields, i)])
  }

  // ----- encoding a valid struct does not fail -----

  /** A struct within its limits, whose fixed-count arrays are there in full, can always be encoded. */
  lemma {:induction false} ValidIsEncodable(fields: seq<Field>, cells: seq<Cell>)
    requires WellFormed(fields) && Valid(fields, cells) && Typed(fields, cells)
    ensures Encodable(fields, cells)
    decreases fields
  {
    forall i | 0 <= i < |fields|
      ensures EncodableCell(fields[i], cells[Home(fields, i)])
    {
      var f, c := fields[i], cells[Home(fields, i)];
      assert WellFormedField(f) && ValidCell(f, c) && TypedCell(f, c);
      match c
      case Single(_, v) => ValidIsEncodableValue(f, v);
      case Many(items) =>
        forall k | 0 <= k < |items| ensures EncodableValue(f, items[k]) { ValidIsEncodableValue(f, items[k]); }
      case OneOf(which, v) => if which == f.tag { ValidIsEncodableValue(f, v); }
      case NoneOf =>
    }
  }

  lemma {:induction false} ValidIsEncodableValue(f: Field, v: Value)
    requires WellFormedField(f) && ValidValue(f, v) && TypedValue(f, v)
    ensures EncodableValue(f, v)
    decreases f
  {
    if f.ltype.SUBMESSAGE? {
      ValidIsEncodable(f.ptr.fields, v.cells);
    }
  }

  // ----- the zero check agrees with the encoder -----

  /** The recursive zero check says "default" exactly when the encoder would write nothing, except for a
    * union whose selector names none of its members: that is not default, and yet is not written. */
  lemma ZeroCheckAgrees(fields: seq<Field>, cells: seq<Cell>)
    requires WellFormed(fields) && Valid(fields, cells) && Typed(fields, cells)
    ensures AllDefault(fields, cells) <==> EncMessage(fields, cells) == [] && SelectorsValid(fields, cells)
  {
    hide Valid, EncFrom, SelectorsValid, AllDefault, NoneWritten, NoneSelected;
    WritesNothing(fields, cells, 0);
    DefaultIsUnwritten(fields, cells);
    if NoneWritten(fields, cells, 0) {
      ValidIsNone(fields, cells);
    }
  }

  ghost predicate NoneWritten(fields: seq<Field>, cells: seq<Cell>, i: nat)
    requires |cells| == |fields|
  {
    forall j {:trigger Home(fields, j)} | i <= j < |fields| :: !Written(fields[j], cells[Home(fields, j)])
  }

  ghost predicate NoneSelected(fields: seq<Field>, cells: seq<Cell>)
    requires |cells| == |fields|
  {
    forall i {:trigger Home(fields, i)} | 0 <= i < |fields| :: !cells[Home(fields, i)].OneOf?
  }

  lemma DefaultIsUnwritten(fields: seq<Field>, cells: seq<Cell>)
    requires WellFormed(fields) && Valid(fields, cells) && Typed(fields, cells)
    ensures AllDefault(fields, cells) <==> NoneWritten(fields, cells, 0) && NoneSelected(fields, cells)
  {
    forall i | 0 <= i < |fields|
      ensures IsDefault(fields[i], cells[Home(fields, i)])
         <==> !Written(fields[i], cells[Home(fields, i)]) && !cells[Home(fields, i)].OneOf?
    {
      var f, c := fields[i], cells[Home(fields, i)];
      assert WellFormedField(f) && ValidCell(f, c) && TypedCell(f, c);
      hide WellFormed, Valid, Typed, Home, Continues, ValidValue, TypedValue, IsZero;
    }
    hide WellFormed, Valid, Typed, IsDefault, Written, Home, Continues;
  }

  /** Where nothing is written, valid selectors are no selectors. */
  lemma ValidIsNone(fields: seq<Field>, cells: seq<Cell>)
    requires Valid(fields, cells) && NoneWritten(fields, cells, 0)
    ensures SelectorsValid(fields, cells) <==> NoneSelected(fields, cells)
  {
    forall h | 0 <= h < |fields| && cells[h].OneOf?
      ensures Home(fields, h) == h
    {
      assert !Continues(fields, h);
    }
    hide Valid, Home, Continues;
  }

  /** Such a union: its selector is 2, and its only member has the tag 1. */
  lemma DanglingSelector() returns (fields: seq<Field>, cells: seq<Cell>)
    ensures fields == [Field(1, BOOL, ONEOF, 4, -4, 1, 0, Null)] && cells == [OneOf(2, Number(0))]
    ensures WellFormed(fields) && Valid(fields, cells) && Typed(fields, cells) && |cells| == |fields|
    ensures EncMessage(fields, cells) == [] && !AllDefault(fields, cells) && !SelectorsValid(fields, cells)
  {
    fields, cells := [Field(1, BOOL, ONEOF, 4, -4, 1, 0, Null)], [OneOf(2, Number(0))];
    assert Home(fields, 0) == 0;
    assert cells[Home(fields, 0)].OneOf? && EncField(fields[0], cells[0]) == [];
  }

  /** Every selector that is set names a member of its union. */
  ghost predicate SelectorsValid(fields: seq<Field>, cells: seq<Cell>)
    requires |cells| == |fields|
  {
    forall h | 0 <= h < |fields| && cells[h].OneOf? ::
      exists j | 0 <= j < |fields| :: Home(fields, j) == h && fields[j].tag == cells[h].which
  }

  lemma {:induction false} WritesNothing(fields: seq<Field>, cells: seq<Cell>, i: nat)
    requires i <= |fields| == |cells|
    ensures EncFrom(fields, cells, i) == [] <==> NoneWritten(fields, cells, i)
    decreases |fields| - i
  {
    hide EncField, Written, Home, Continues;
    if i < |fields| {
      WritesNothing(fields, cells, i + 1);
      WrittenHasBytes(fields[i], cells[Home(fields, i)]);
      assert EncFrom(fields, cells, i) == EncField(fields[i], cells[Home(fields, i)]) + EncFrom(fields, cells, i + 1);
      NoneWrittenStep(fields, cells, i);
      hide EncFrom, NoneWritten;
    }
  }

  lemma NoneWrittenStep(fields: seq<Field>, cells: seq<Cell>, i: nat)
    requires i < |fields| == |cells|
    ensures NoneWritten(fields, cells, i)
       <==> !Written(fields[i], cells[Home(fields, i)]) && NoneWritten(fields, cells, i + 1)
  {
    hide Written, Home, Continues;
    if NoneWritten(fields, cells, i) {
      assert !Written(fields[i], cells[Home(fields, i)]);
    }
  }

  lemma WrittenHasBytes(f: Field, c: Cell)
    ensures EncField(f, c) == [] <==> !Written(f, c)
  {
    if Written(f, c) && c.Many? {
      if f.ltype.Packable() {
        assert EncField(f, c) == EncTag(WT_STRING, f.tag) + EncDelimited(EncPacked(f, c.items));
      } else {
        assert |EncRecords(f, c.items)| >= |EncTag(WireType(f.ltype), f.tag)|;
      }
    }
  }

  // ----- the length of packed data -----

  lemma {:induction false} PackedLength(f: Field, items: seq<Value>)
    requires forall k | 0 <= k < |items| :: items[k].Number?
    ensures f.ltype.FIXED32? ==> |EncPacked(f, items)| == 4 * |items|
    ensures f.ltype.FIXED64? ==> |EncPacked(f, items)| == 8 * |items|
  {
    if items != [] {
      PackedLength(f, items[1..]);
    }
  }
}
