/** What comes back from an encoded struct, value by value, described without the functions that compute it. */
module Readback {
  import opened Varints
  import opened Schema
  import opened Encode
  import opened Decode
  import opened Merge
  import opened NormalForm
  import opened Unset
  import R = RoundTrip

  // ----- what is written -----

  /** A value that a field with implicit presence has to be written for. */
  predicate Something(f: Field, v: Value)
    decreases v
  {
    match v
    case Number(n) => n != 0
    case Chars(bs) => (
      match f.ltype
      case STRING => bs != [] && bs[0] != 0
      case _ => |bs| > 0)
    case Message(cells) => f.ptr.Submessage? && SomethingIn(f.ptr.fields, cells)
  }

  predicate SomethingIn(fields: seq<Field>, cells: seq<Cell>)
    decreases cells
  {
    && |cells| == |fields|
    && exists i {:trigger Home(fields, i)} | 0 <= i < |fields| :: SomethingInCell(fields[i], cells[Home(fields, i)])
  }

  predicate SomethingInCell(f: Field, c: Cell)
    decreases c
  {
    match c
    case Single(has, v) => f.htype.REQUIRED? || (if f.sizeOffset != 0 then has else Something(f, v))
    case Many(items) => f.sizeOffset == 0 || items != []
    case NoneOf => false
    case OneOf(_, _) => true
    case Shared => false
  }

  /** Required, flagged, not empty, selected, or with something in it. */
  predicate Present(f: Field, c: Cell) {
    match c
    case Single(has, v) => f.htype.REQUIRED? || (if f.sizeOffset != 0 then has else Something(f, v))
    case Many(items) => items != []
    case NoneOf => false
    case OneOf(which, _) => which == f.tag
    case Shared => false
  }

  lemma {:induction false} ZeroIsNothing(f: Field, v: Value)
    requires WellFormedField(f) && (ValidValue(f, v) || TypedValue(f, v))
    ensures IsZero(f, v) <==> !Something(f, v)
    decreases v
  {
    if v.Message? {
      var sub, cells := f.ptr.fields, v.cells;
      assert f.ptr.Submessage? && WellFormed(sub) && (Valid(sub, cells) || Typed(sub, cells));
      SameCount(sub, cells);
      hide WellFormed, WellFormedField, Valid, Typed, ValidCell, TypedCell, Home, Continues;
      forall i | 0 <= i < |sub|
        ensures IsDefault(sub[i], cells[Home(sub, i)]) <==> !SomethingInCell(sub[i], cells[Home(sub, i)])
      {
        KindOf(sub, cells, i);
        DefaultIsNothing(sub[i], cells[Home(sub, i)]);
      }
      Nowhere(sub, cells);
    }
  }

  lemma SameCount(fields: seq<Field>, cells: seq<Cell>)
    requires Valid(fields, cells) || Typed(fields, cells)
    ensures |cells| == |fields|
  {
  }

  lemma KindOf(fields: seq<Field>, cells: seq<Cell>, i: nat)
    requires WellFormed(fields) && (Valid(fields, cells) || Typed(fields, cells)) && i < |fields| == |cells|
    ensures WellFormedField(fields[i])
    ensures ValidCell(fields[i], cells[Home(fields, i)]) || TypedCell(fields[i], cells[Home(fields, i)])
  {
    hide WellFormedField, ValidCell, TypedCell;
  }

  lemma Nowhere(fields: seq<Field>, cells: seq<Cell>)
    requires |cells| == |fields|
    requires forall i {:trigger Home(fields, i)} | 0 <= i < |fields| ::
               IsDefault(fields[i], cells[Home(fields, i)]) <==> !SomethingInCell(fields[i], cells[Home(fields, i)])
    ensures AllDefault(fields, cells) <==> !SomethingIn(fields, cells)
  {
    hide IsDefault, SomethingInCell, Home, Continues;
  }

  lemma {:induction false} DefaultIsNothing(f: Field, c: Cell)
    requires WellFormedField(f) && (ValidCell(f, c) || TypedCell(f, c))
    ensures IsDefault(f, c) <==> !SomethingInCell(f, c)
    decreases c
  {
    if c.Single? {
      ZeroIsNothing(f, c.value);
    }
    hide ValidValue, TypedValue, IsZero, Something;
  }

  /** A field has bytes in the encoding exactly if it is present. */
  lemma PresentIsWritten(f: Field, c: Cell)
    requires WellFormedField(f) && (ValidCell(f, c) || TypedCell(f, c))
    ensures EncField(f, c) != [] <==> Present(f, c)
  {
    WrittenHasBytes(f, c);
    if c.Single? {
      ZeroIsNothing(f, c.value);
    }
    hide ValidValue, TypedValue, IsZero, Something, EncField;
  }

  /** Said for each kind of value of a field with implicit presence. */
  lemma ImplicitPresence(f: Field, v: Value)
    requires f.htype.OPTIONAL? && f.sizeOffset == 0
    ensures v.Number? ==> (EncField(f, Single(true, v)) == [] <==> v.n == 0)
    ensures v.Chars? && f.ltype.BYTES? ==> (EncField(f, Single(true, v)) == [] <==> |v.bs| == 0)
    ensures v.Chars? && f.ltype.STRING? ==> (EncField(f, Single(true, v)) == [] <==> v.bs == [] || v.bs[0] == 0)
    ensures v.Chars? && f.ltype.FIXED_LENGTH_BYTES? ==> (EncField(f, Single(true, v)) == [] <==> f.dataSize == 0)
  {
    var c := Single(true, v);
    WrittenHasBytes(f, c);
    assert Written(f, c) <==> !IsDefault(f, c);
    assert IsDefault(f, c) <==> IsZero(f, v);
    hide EncField, Written, IsDefault;
  }

  // ----- what can be written -----

  /** Arrays within their counts, and bytes within their buffers, in all that is present. */
  ghost predicate WithinValue(f: Field, v: Value)
    decreases v
  {
    match v
    case Number(_) => true
    case Chars(bs) => f.ltype.BYTES? ==> |bs| + 4 <= f.dataSize
    case Message(cells) => f.ptr.Submessage? ==> WithinLimits(f.ptr.fields, cells)
  }

  ghost predicate WithinCell(f: Field, c: Cell)
    decreases c
  {
    match c
    case Many(items) => |items| <= f.arraySize && forall k | 0 <= k < |items| :: WithinValue(f, items[k])
    case Single(_, v) => Present(f, c) ==> WithinValue(f, v)
    case OneOf(_, v) => Present(f, c) ==> WithinValue(f, v)
    case _ => true
  }

  ghost predicate WithinLimits(fields: seq<Field>, cells: seq<Cell>)
    decreases cells
  {
    |cells| == |fields| && forall i {:trigger Home(fields, i)} | 0 <= i < |fields| ::
          WithinCell(fields[i], cells[Home(fields, i)])
  }

  lemma {:induction false} ValueIsEncodable(f: Field, v: Value)
    requires WellFormedField(f) && TypedValue(f, v)
    ensures EncodableValue(f, v) <==> WithinValue(f, v)
    decreases v
  {
    if v.Message? {
      EncodableExactly(f.ptr.fields, v.cells);
    }
  }

  lemma {:induction false} CellIsEncodable(f: Field, c: Cell)
    requires WellFormedField(f) && TypedCell(f, c)
    ensures EncodableCell(f, c) <==> WithinCell(f, c)
    decreases c
  {
    PresentIsWritten(f, c);
    WrittenHasBytes(f, c);
    match c
    case Single(_, v) => ValueIsEncodable(f, v);
    case Many(items) =>
      forall k | 0 <= k < |items| ensures EncodableValue(f, items[k]) <==> WithinValue(f, items[k]) {
        ValueIsEncodable(f, items[k]);
      }
    case OneOf(which, v) => if which == f.tag { ValueIsEncodable(f, v); }
    case NoneOf =>
    hide WellFormedField, TypedValue, EncodableValue, WithinValue, Something, IsZero, EncField;
  }

  /** A struct whose cells have the right kinds can be encoded exactly if it is within these limits. */
  lemma {:induction false} EncodableExactly(fields: seq<Field>, cells: seq<Cell>)
    requires WellFormed(fields) && Typed(fields, cells)
    ensures Encodable(fields, cells) <==> WithinLimits(fields, cells)
    decreases cells
  {
    forall i | 0 <= i < |fields|
      ensures EncodableCell(fields[i], cells[Home(fields, i)]) <==> WithinCell(fields[i], cells[Home(fields, i)])
    {
      assert WellFormedField(fields[i]) && TypedCell(fields[i], cells[Home(fields, i)]);
      CellIsEncodable(fields[i], cells[Home(fields, i)]);
    }
    hide WellFormed, Typed, EncodableCell, WithinCell, Home;
  }

  // ----- what is read -----

  /** Up to the first NUL. */
  predicate CutAtNul(bs: seq<byte>, cut: seq<byte>) {
    cut <= bs && 0 !in cut && (|cut| < |bs| ==> bs[|cut|] == 0)
  }

  /** v comes back as w. */
  ghost predicate ReadValue(f: Field, v: Value, w: Value)
    decreases v
  {
    match v
    case Number(n) => w == Number(n)
    case Chars(bs) => w.Chars? && if f.ltype.STRING? then CutAtNul(bs, w.bs) else w.bs == bs
    case Message(cells) => w.Message? && f.ptr.Submessage? && ReadStruct(f.ptr.fields, cells, w.cells)
  }

  /** A field that is present comes back with its value, and any other unset. */
  ghost predicate ReadCell(f: Field, c: Cell, d: Cell)
    decreases c
  {
    match f.htype
    case REQUIRED => c.Single? && d.Single? && ReadValue(f, c.value, d.value)
    case OPTIONAL =>
      && c.Single? && d.Single? && d.has == (if f.sizeOffset != 0 then c.has else true)
      && if Present(f, c) then ReadValue(f, c.value, d.value) else UnsetValue(f, d.value)
    case REPEATED =>
      && c.Many? && d.Many? && |d.items| == |c.items|
      && forall k | 0 <= k < |c.items| :: ReadValue(f, c.items[k], d.items[k])
    case ONEOF =>
      if c.OneOf? && c.which == f.tag then d.OneOf? && d.which == f.tag && ReadValue(f, c.value, d.value)
      else d == NoneOf || (d.OneOf? && d.which != f.tag)
  }

  /** So does every field, and selectors name members. */
  ghost predicate ReadStruct(fields: seq<Field>, m: seq<Cell>, d: seq<Cell>)
    decreases m
  {
    && |m| == |fields| == |d| && SelectorsValid(fields, d)
    && forall i {:trigger Home(fields, i)} | 0 <= i < |fields| ::
         ReadCell(fields[i], m[Home(fields, i)], d[Home(fields, i)])
  }

  lemma {:induction false} NormValueReads(f: Field, v: Value)
    requires WellFormedField(f) && ValidValue(f, v)
    ensures ReadValue(f, v, NormValue(f, v))
    decreases v
  {
    if v.Message? {
      NormalReads(f.ptr.fields, v.cells);
      hide Normalize, ReadStruct;
    }
  }

  lemma {:induction false} NormItemsRead(f: Field, items: seq<Value>)
    requires WellFormedField(f) && forall k | 0 <= k < |items| :: ValidValue(f, items[k])
    ensures forall k | 0 <= k < |items| :: ReadValue(f, items[k], NormItems(f, items)[k])
    decreases items
  {
    if items != [] {
      NormValueReads(f, items[0]);
      NormItemsRead(f, items[1..]);
    }
  }

  lemma {:induction false} NormalCellReads(f: Field, c: Cell, d: Cell)
    requires WellFormedField(f) && ValidCell(f, c) && Normalized(f, c, d)
    requires f.htype.ONEOF? ==> d.NoneOf? || d.OneOf?
    ensures ReadCell(f, c, d)
    decreases c
  {
    PresentIsWritten(f, c);
    WrittenHasBytes(f, c);
    DefaultValueUnset(f);
    if Written(f, c) {
      match c
      case Single(_, v) => NormValueReads(f, v);
      case Many(items) => NormItemsRead(f, items);
      case OneOf(_, v) => NormValueReads(f, v);
    }
    hide WellFormedField, ValidValue, ReadValue, NormValue, UnsetValue, DefaultValue, Something, IsZero, EncField;
  }

  lemma NormalSelectors(fields: seq<Field>, m: seq<Cell>)
    requires WellFormed(fields) && Valid(fields, m) && |m| == |fields|
    ensures SelectorsValid(fields, Normalize(fields, m))
  {
    var d := Normalize(fields, m);
    forall h | 0 <= h < |fields| && d[h].OneOf?
      ensures exists j | 0 <= j < |fields| :: Home(fields, j) == h && fields[j].tag == d[h].which
    {
      assert !Continues(fields, h);
      NormalizedAt(fields, m, h);
      hide Normalize, WellFormed, Valid, NormValue;
      var j := Writer(fields, m, h).value;
      assert Home(fields, j) == h && fields[j].tag == d[h].which;
    }
  }

  /** Every value of a struct is in its normal form. */
  lemma {:induction false} NormalReads(fields: seq<Field>, m: seq<Cell>)
    requires WellFormed(fields) && Valid(fields, m)
    ensures ReadStruct(fields, m, Normalize(fields, m))
    decreases m
  {
    NormalSelectors(fields, m);
    NormalizeValid(fields, m);
    var d := Normalize(fields, m);
    forall i | 0 <= i < |fields|
      ensures ReadCell(fields[i], m[Home(fields, i)], d[Home(fields, i)])
    {
      CellNormalized(fields, m, i);
      assert ValidCell(fields[i], d[Home(fields, i)]);
      hide Normalize, WellFormed, Valid;
      NormalCellReads(fields[i], m[Home(fields, i)], d[Home(fields, i)]);
    }
  }

  /** Whatever is encoded and can be decoded comes back: numbers, bytes and strings up to their first NUL,
    * with flags, counts and selectors, at every depth. */
  lemma ReadsBack(fields: seq<Field>, m: seq<Cell>)
    requires WellFormed(fields) && Valid(fields, m) && Encodable(fields, m) && |m| == |fields|
    requires |EncMessage(fields, m)| < TWO_63 && R.Short(fields, m, 0)
    ensures DecFresh(fields, EncMessage(fields, m)).Some?
    ensures ReadStruct(fields, m, DecFresh(fields, EncMessage(fields, m)).value)
  {
    R.RoundTrip(fields, m);
    NormalReads(fields, m);
  }

  /** With implicit presence and no other default than zero, what was not written comes back as well. */
  lemma ImplicitReadsSame(f: Field, c: Cell, d: Cell)
    requires f.htype.OPTIONAL? && f.sizeOffset == 0 && WellFormedField(f) && ValidCell(f, c) && ReadCell(f, c, d)
    requires f.ptr.Default? ==> f.ptr.value == Number(0) || f.ptr.value == Chars([])
    ensures c.value.Number? || (c.value.Chars? && !f.ltype.STRING?) ==> d.value == c.value
    ensures f.ltype.STRING? ==> c.value.Chars? && d.value.Chars? && CutAtNul(c.value.bs, d.value.bs)
    ensures f.ltype.STRING? && 0 !in c.value.bs ==> d.value == c.value
  {
    if f.ltype.STRING? && 0 !in c.value.bs && Present(f, c) {
      assert d.value.bs == c.value.bs;
    }
  }
}
