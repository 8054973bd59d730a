/** What single records do to a struct, and what is missing from a message that is rejected. */
module Effects {
  import opened Options
  import opened Varints
  import opened Schema
  import opened Scalars
  import opened Encode
  import opened Decode
  import opened Merge
  import opened RoundTrip
  import opened Records
  import opened Unset

  // ----- one record -----

  /** The record r sets the cell of field i to c, and changes no other; without c it is rejected. */
  ghost predicate Sets(fields: seq<Field>, p: Progress, i: nat, r: seq<byte>, c: Option<Cell>)
    requires WellFormed(fields) && ValidProgress(fields, p) && i < |fields|
  {
    var s := DecStep(fields, p, r);
    match c
    case None => s.Malformed?
    case Some(w) =>
      && s.Ok? && s.rest == [] && !s.value.stopped && |p.cells| == |fields|
      && s.value.cells == p.cells[Home(fields, i) := w]
  }

  lemma SetsByDecoder(fields: seq<Field>, p: Progress, i: nat, wireType: nat, payload: seq<byte>)
    requires WellFormed(fields) && ValidProgress(fields, p) && !p.stopped && i < |fields| && wireType < 8
    requires !fields[i].FixedCount()
    ensures WellFormedField(fields[i]) && |p.cells| == |fields|
    ensures ValidCell(fields[i], p.cells[Home(fields, i)])
    ensures match DecField(fields[i], wireType, p.cells[Home(fields, i)], payload)
            case Ok(c, rest) => rest == [] ==> Sets(fields, p, i, EncTag(wireType, fields[i].tag) + payload, Some(c))
            case Malformed => Sets(fields, p, i, EncTag(wireType, fields[i].tag) + payload, None)
            case Truncated => true
  {
    FieldFacts(fields, p.cells, i);
    hide DecField, EncTag, DecStep, WellFormedField, ValidCell, Home, WellFormed, Valid;
    FieldStep(fields, p, i, wireType, payload);
  }

  lemma FieldStep(fields: seq<Field>, p: Progress, i: nat, wireType: nat, payload: seq<byte>)
    requires WellFormed(fields) && ValidProgress(fields, p) && i < |fields| == |p.cells| && wireType < 8
    requires !fields[i].FixedCount() && WellFormedField(fields[i]) && ValidCell(fields[i], p.cells[Home(fields, i)])
    ensures var d := DecField(fields[i], wireType, p.cells[Home(fields, i)], payload);
            var s := DecStep(fields, p, EncTag(wireType, fields[i].tag) + payload);
            && (d.Malformed? ==> s.Malformed?)
            && (d.Ok? ==> s.Ok? && s.rest == d.rest && s.value.cells == p.cells[Home(fields, i) := d.value]
                          && s.value.stopped == p.stopped)
  {
    var tag := Tag.Tag(fields[i].tag, wireType);
    assert 1 <= fields[i].tag < 0x2000_0000;
    ReadTagInverts(wireType, fields[i].tag, payload);
    FindUnique(fields, i);
    EnterPlain(fields, p, i);
    hide DecField, EncTag, ReadTag, FindField, WellFormedField, ValidCell, Home, Enter, SkipField, WellFormed, Valid;
    assert DecStep(fields, p, EncTag(wireType, fields[i].tag) + payload) == DecRecord(fields, p, tag, payload);
    hide DecStep;
  }

  lemma NumberField(f: Field, c: Cell, n: int)
    requires WellFormedField(f) && ValidCell(f, c) && f.ltype.Packable() && ValidNumber(f.ltype, f.dataSize, n)
    ensures var d := DecField(f, WireType(f.ltype), c, EncNumber(f.ltype, n));
            && (f.htype.REQUIRED? || f.htype.OPTIONAL? ==> d == Ok(Single(true, Number(n)), []))
            && (f.htype.ONEOF? ==> d == Ok(OneOf(f.tag, Number(n)), []))
            && (f.htype.REPEATED? ==>
                  c.Many? && if |c.items| < f.arraySize then d == Ok(Many(c.items + [Number(n)]), []) else d.Malformed?)
  {
    NumberRoundTrip(f.ltype, f.dataSize, n, []);
    assert EncNumber(f.ltype, n) + [] == EncNumber(f.ltype, n);
    DefaultValueValid(f);
    assert WireType(f.ltype) != WT_STRING;
    hide EncNumber, ReadNumber, ValidNumber, DefaultValue;
  }

  /** A number replaces the one before, selects its union member, or is appended as long as there is room. */
  lemma NumberRecord(fields: seq<Field>, p: Progress, i: nat, n: int)
    requires WellFormed(fields) && ValidProgress(fields, p) && !p.stopped && i < |fields|
    requires fields[i].ltype.Packable() && ValidNumber(fields[i].ltype, fields[i].dataSize, n)
    requires !fields[i].FixedCount()
    ensures var f, r := fields[i], EncTag(WireType(fields[i].ltype), fields[i].tag) + EncNumber(fields[i].ltype, n);
            && |p.cells| == |fields|
            && (f.htype.REQUIRED? || f.htype.OPTIONAL? ==> Sets(fields, p, i, r, Some(Single(true, Number(n)))))
            && (f.htype.ONEOF? ==> Sets(fields, p, i, r, Some(OneOf(f.tag, Number(n)))))
            && (f.htype.REPEATED? ==>
                  && p.cells[Home(fields, i)].Many?
                  && var items := p.cells[Home(fields, i)].items;
                     Sets(fields, p, i, r, if |items| < f.arraySize then Some(Many(items + [Number(n)])) else None))
  {
    var f := fields[i];
    assert WireType(f.ltype) < 8;
    hide *;
    SetsByDecoder(fields, p, i, WireType(f.ltype), EncNumber(f.ltype, n));
    NumberField(f, p.cells[Home(fields, i)], n);
  }

  /** Whether a buffer takes these bytes. */
  predicate Fits(f: Field, bs: seq<byte>) {
    match f.ltype
    case BYTES => |bs| + 4 <= f.dataSize
    case STRING => |bs| + 1 <= f.dataSize
    case _ => |bs| == f.dataSize || bs == []
  }

  /** What is in the buffer then: an empty value zeroes one of fixed length. */
  predicate Filled(f: Field, bs: seq<byte>, v: Value) {
    && v.Chars?
    && if f.ltype.FIXED_LENGTH_BYTES? && bs == []
       then |v.bs| == f.dataSize && forall k | 0 <= k < |v.bs| :: v.bs[k] == 0
       else v.bs == bs
  }

  lemma ReadsChars(f: Field, bs: seq<byte>)
    requires f.ltype.BYTES? || f.ltype.STRING? || f.ltype.FIXED_LENGTH_BYTES?
    requires f.dataSize <= PB_SIZE_MAX && |bs| < TWO_32
    ensures var r := ReadChars(f, EncDelimited(bs));
            if Fits(f, bs) then r.Ok? && r.rest == [] && Filled(f, bs, Chars(r.value)) else r.Malformed?
  {
    ReadVarint32Inverts(|bs|, bs);
    hide ReadVarint32, EncVarint;
    ModSmall(|bs| + 1);
    assert bs[..|bs|] == bs && bs[|bs|..] == [];
  }

  lemma CharsField(f: Field, c: Cell, bs: seq<byte>) returns (v: Value)
    requires WellFormedField(f) && ValidCell(f, c) && |bs| < TWO_32
    requires f.ltype.BYTES? || f.ltype.STRING? || f.ltype.FIXED_LENGTH_BYTES?
    ensures Fits(f, bs) ==> Filled(f, bs, v)
    ensures var d := DecField(f, WT_STRING, c, EncDelimited(bs));
            && (!Fits(f, bs) ==> d.Malformed?)
            && (Fits(f, bs) && (f.htype.REQUIRED? || f.htype.OPTIONAL?) ==> d == Ok(Single(true, v), []))
            && (Fits(f, bs) && f.htype.ONEOF? ==> d == Ok(OneOf(f.tag, v), []))
            && (Fits(f, bs) && f.htype.REPEATED? ==>
                  c.Many? && if |c.items| < f.arraySize then d == Ok(Many(c.items + [v]), []) else d.Malformed?)
  {
    ReadsChars(f, bs);
    DefaultValueValid(f);
    var read := ReadChars(f, EncDelimited(bs));
    v := if read.Ok? then Chars(read.value) else Number(0);
    hide EncDelimited, ReadChars, DefaultValue, Fits, Filled;
  }

  /** Bytes and strings are taken exactly if they fit. */
  lemma CharsRecord(fields: seq<Field>, p: Progress, i: nat, bs: seq<byte>) returns (v: Value)
    requires WellFormed(fields) && ValidProgress(fields, p) && !p.stopped && i < |fields| && |bs| < TWO_32
    requires fields[i].ltype.BYTES? || fields[i].ltype.STRING? || fields[i].ltype.FIXED_LENGTH_BYTES?
    requires !fields[i].FixedCount()
    ensures Fits(fields[i], bs) ==> Filled(fields[i], bs, v)
    ensures var f, r := fields[i], EncTag(WT_STRING, fields[i].tag) + EncDelimited(bs);
            && |p.cells| == |fields|
            && (!Fits(f, bs) ==> Sets(fields, p, i, r, None))
            && (Fits(f, bs) && (f.htype.REQUIRED? || f.htype.OPTIONAL?) ==>
                  Sets(fields, p, i, r, Some(Single(true, v))))
            && (Fits(f, bs) && f.htype.ONEOF? ==> Sets(fields, p, i, r, Some(OneOf(f.tag, v))))
            && (Fits(f, bs) && f.htype.REPEATED? ==>
                  && p.cells[Home(fields, i)].Many?
                  && var items := p.cells[Home(fields, i)].items;
                     Sets(fields, p, i, r, if |items| < f.arraySize then Some(Many(items + [v])) else None))
  {
    assert WT_STRING < 8;
    hide *;
    SetsByDecoder(fields, p, i, WT_STRING, EncDelimited(bs));
    v := CharsField(fields[i], p.cells[Home(fields, i)], bs);
  }

  /** The first number of another fixed-count array starts it afresh, if the last one is complete. */
  lemma FixedNumberRecord(fields: seq<Field>, p: Progress, i: nat, n: int)
    requires WellFormed(fields) && ValidProgress(fields, p) && !p.stopped && i < |fields|
    requires fields[i].ltype.Packable() && ValidNumber(fields[i].ltype, fields[i].dataSize, n)
    requires fields[i].FixedCount() && p.current != Some(i)
    ensures |p.cells| == |fields|
    ensures p.current.Some? ==> p.current.value < |fields| && p.cells[Home(fields, p.current.value)].Many?
    ensures var f := fields[i];
            var s := DecStep(fields, p, EncTag(WireType(f.ltype), f.tag) + EncNumber(f.ltype, n));
            if p.current.Some? && |p.cells[Home(fields, p.current.value)].items| != fields[p.current.value].arraySize
            then s.Malformed?
            else s.Ok? && s.rest == [] && s.value.cells == p.cells[Home(fields, i) := Many([Number(n)])]
                 && s.value.current == Some(i)
  {
    var f, h := fields[i], Home(fields, i);
    var tag, payload := Tag.Tag(f.tag, WireType(f.ltype)), EncNumber(f.ltype, n);
    FieldFacts(fields, p.cells, i);
    if p.current.Some? {
      FieldFacts(fields, p.cells, p.current.value);
      assert p.cells[Home(fields, p.current.value)].Many?;
    }
    assert ValidCell(f, Many([]));
    NumberField(f, Many([]), n);
    ReadTagInverts(tag.wireType, f.tag, payload);
    FindUnique(fields, i);
    hide DecField, EncTag, EncNumber, ReadTag, FindField, WellFormedField, ValidCell, SkipField, WellFormed, Valid;
    assert DecStep(fields, p, EncTag(tag.wireType, f.tag) + payload) == DecRecord(fields, p, tag, payload);
    hide DecStep, Home, ValidNumber;
    assert Many([]).items + [Number(n)] == [Number(n)];
  }

  // ----- submessages -----

  function Wrapped(cells: Option<seq<Cell>>, wrap: seq<Cell> -> Cell): Option<Cell> {
    match cells case Some(d) => Some(wrap(d)) case None => None
  }

  /** The decoder of a submessage field, given what the nested message makes of the body. */
  lemma SubmessageField(f: Field, c: Cell, body: seq<byte>)
    requires WellFormedField(f) && ValidCell(f, c) && f.ltype.SUBMESSAGE? && |body| < TWO_32
    ensures f.ptr.Submessage? && WellFormed(f.ptr.fields)
    ensures f.htype.REQUIRED? || f.htype.OPTIONAL? ==>
              && c.Single? && c.value.Message? && Valid(f.ptr.fields, c.value.cells)
              && IsDecoded(f, c, body,
                           Wrapped(DecMessage(f.ptr.fields, c.value.cells, body), d => Single(true, Message(d))))
    ensures f.htype.ONEOF? && c.OneOf? && c.which == f.tag ==>
              && c.value.Message? && Valid(f.ptr.fields, c.value.cells)
              && IsDecoded(f, c, body,
                           Wrapped(DecMessage(f.ptr.fields, c.value.cells, body), d => OneOf(f.tag, Message(d))))
    ensures f.htype.ONEOF? && !(c.OneOf? && c.which == f.tag) ==>
              IsDecoded(f, c, body, Wrapped(DecFresh(f.ptr.fields, body), d => OneOf(f.tag, Message(d))))
    ensures f.htype.REPEATED? ==>
              && c.Many?
              && IsDecoded(f, c, body, if |c.items| < f.arraySize
                                       then Wrapped(DecFresh(f.ptr.fields, body), d => Many(c.items + [Message(d)]))
                                       else None)
  {
    DefaultValueValid(f);
    assert f.htype.ONEOF? && !(c.OneOf? && c.which == f.tag) ==> Selected(f, c) == DefaultValue(f);
    assert f.htype.ONEOF? && c.OneOf? && c.which == f.tag ==> Selected(f, c) == c.value;
    if f.htype.REPEATED? {
      SubmessageValue(f, DefaultValue(f), body);
    } else if f.htype.ONEOF? {
      SubmessageValue(f, Selected(f, c), body);
    } else {
      SubmessageValue(f, c.value, body);
    }
    hide EncDelimited, DecValue, DecMessage, Defaults, WellFormed, Valid, Selected;
  }

  lemma SubmessageValue(f: Field, v: Value, body: seq<byte>)
    requires WellFormedField(f) && ValidValue(f, v) && f.ltype.SUBMESSAGE? && |body| < TWO_32
    ensures f.ptr.Submessage? && WellFormed(f.ptr.fields) && v.Message? && Valid(f.ptr.fields, v.cells)
    ensures match DecMessage(f.ptr.fields, v.cells, body)
            case Some(d) => DecValue(f, v, EncDelimited(body)) == Ok(Message(d), [])
            case None => DecValue(f, v, EncDelimited(body)).Malformed?
  {
    ReadDelimitedInverts(body, []);
    assert EncDelimited(body) + [] == EncDelimited(body);
    hide EncDelimited, ReadDelimited, DecMessage, WellFormed, Valid;
  }

  ghost predicate IsDecoded(f: Field, c: Cell, body: seq<byte>, d: Option<Cell>)
    requires WellFormedField(f) && ValidCell(f, c)
  {
    match d
    case Some(w) => DecField(f, WT_STRING, c, EncDelimited(body)) == Ok(w, [])
    case None => DecField(f, WT_STRING, c, EncDelimited(body)).Malformed?
  }

  lemma SetsDecoded(fields: seq<Field>, p: Progress, i: nat, body: seq<byte>, c: Option<Cell>)
    requires WellFormed(fields) && ValidProgress(fields, p) && !p.stopped && i < |fields| == |p.cells|
    requires !fields[i].FixedCount() && WellFormedField(fields[i]) && ValidCell(fields[i], p.cells[Home(fields, i)])
    requires IsDecoded(fields[i], p.cells[Home(fields, i)], body, c)
    ensures Sets(fields, p, i, EncTag(WT_STRING, fields[i].tag) + EncDelimited(body), c)
  {
    hide Sets, DecField, EncTag, EncDelimited, WellFormed, ValidProgress, WellFormedField, ValidCell, Home;
    SetsByDecoder(fields, p, i, WT_STRING, EncDelimited(body));
  }

  /** A submessage is merged into the one that is there. In a union it is if its member is selected: any
    * other selection is given up for a fresh struct. An element of an array is always fresh. */
  lemma SubmessageRecord(fields: seq<Field>, p: Progress, i: nat, body: seq<byte>)
    requires WellFormed(fields) && ValidProgress(fields, p) && !p.stopped && i < |fields|
    requires fields[i].ltype.SUBMESSAGE? && |body| < TWO_32 && !fields[i].FixedCount()
    ensures fields[i].ptr.Submessage? && WellFormed(fields[i].ptr.fields) && |p.cells| == |fields|
    ensures var f, sub, prev := fields[i], fields[i].ptr.fields, p.cells[Home(fields, i)];
            var r := EncTag(WT_STRING, f.tag) + EncDelimited(body);
            && (f.htype.REQUIRED? || f.htype.OPTIONAL? ==>
                  && prev.Single? && prev.value.Message? && Valid(sub, prev.value.cells)
                  && Sets(fields, p, i, r,
                          Wrapped(DecMessage(sub, prev.value.cells, body), d => Single(true, Message(d)))))
            && (f.htype.ONEOF? && prev.OneOf? && prev.which == f.tag ==>
                  && prev.value.Message? && Valid(sub, prev.value.cells)
                  && Sets(fields, p, i, r,
                          Wrapped(DecMessage(sub, prev.value.cells, body), d => OneOf(f.tag, Message(d)))))
            && (f.htype.ONEOF? && !(prev.OneOf? && prev.which == f.tag) ==>
                  Sets(fields, p, i, r, Wrapped(DecFresh(sub, body), d => OneOf(f.tag, Message(d)))))
            && (f.htype.REPEATED? ==>
                  && prev.Many?
                  && Sets(fields, p, i, r, if |prev.items| < f.arraySize
                                           then Wrapped(DecFresh(sub, body), d => Many(prev.items + [Message(d)]))
                                           else None))
  {
    assert Valid(fields, p.cells);
    hide *;
    var f := fields[i];
    FieldFacts(fields, p.cells, i);
    var prev := p.cells[Home(fields, i)];
    SubmessageField(f, prev, body);
    forall c | IsDecoded(f, prev, body, c)
      ensures Sets(fields, p, i, EncTag(WT_STRING, f.tag) + EncDelimited(body), c)
    {
      SetsDecoded(fields, p, i, body, c);
    }
  }

  /** What a union holds after the record of a submessage: the member is selected, and the body has been
    * decoded into what it held if it was selected before, else into a fresh struct. */
  ghost predicate UnionDecoded(f: Field, c: Cell, input: seq<byte>, d: Cell) {
    f.htype.ONEOF? && f.ltype.SUBMESSAGE? ==>
      && d.OneOf? && d.which == f.tag && d.value.Message? && ReadDelimited(input).Ok?
      && f.ptr.Submessage? && WellFormed(f.ptr.fields)
      && var sub, body := f.ptr.fields, ReadDelimited(input).value;
         if c.OneOf? && c.which == f.tag
         then c.value.Message? && Valid(sub, c.value.cells)
              && DecMessage(sub, c.value.cells, body) == Some(d.value.cells)
         else DecFresh(sub, body) == Some(d.value.cells)
  }

  /** So it is for any input. */
  lemma UnionIsDecoded(f: Field, wireType: nat, c: Cell, input: seq<byte>)
    requires WellFormedField(f) && ValidCell(f, c)
    ensures var d := DecField(f, wireType, c, input); d.Ok? ==> UnionDecoded(f, c, input, d.value)
  {
    DefaultValueValid(f);
    hide ReadDelimited, DecMessage, Defaults, WellFormed, Valid, ReadPacked;
  }

  /** Fields of the selected submessage of which the new record has none stay as they are. */
  lemma UnionKeepsRest(fields: seq<Field>, p: Progress, i: nat, prev: seq<Cell>, body: seq<byte>, k: nat)
    requires WellFormed(fields) && ValidProgress(fields, p) && !p.stopped && i < |fields| == |p.cells|
    requires fields[i].htype.ONEOF? && fields[i].ltype.SUBMESSAGE? && |body| < TWO_32
    requires p.cells[Home(fields, i)] == OneOf(fields[i].tag, Message(prev))
    requires fields[i].ptr.Submessage? && WellFormed(fields[i].ptr.fields) && Valid(fields[i].ptr.fields, prev)
    requires k < |fields[i].ptr.fields| && NoRecordOf(fields[i].ptr.fields, Start(prev), body, k)
    ensures |prev| == |fields[i].ptr.fields|
    ensures var s := DecStep(fields, p, EncTag(WT_STRING, fields[i].tag) + EncDelimited(body));
            s.Ok? ==>
              && |s.value.cells| == |fields|
              && var c := s.value.cells[Home(fields, i)];
                 c.OneOf? && c.which == fields[i].tag && c.value.Message? && |c.value.cells| == |prev|
                 && c.value.cells[k] == prev[k]
  {
    var sub := fields[i].ptr.fields;
    SubmessageRecord(fields, p, i, body);
    if DecMessage(sub, prev, body).Some? {
      KeptInMessage(sub, prev, body, k);
    } else {
      FieldCount(sub, prev);
    }
    hide DecMessage, DecStep, EncTag, EncDelimited, WellFormed, Valid, NoRecordOf, Home;
  }

  // ----- required fields -----

  lemma SeenStep(fields: seq<Field>, p: Progress, input: seq<byte>, i: nat)
    requires WellFormed(fields) && ValidProgress(fields, p) && DecStep(fields, p, input).Ok?
    requires i < |fields| && fields[i].htype.REQUIRED?
    ensures i in DecStep(fields, p, input).value.seen <==> i in p.seen || Target(fields, input) == Some(i)
  {
    hide ReadTag, SkipField, DecField, WellFormedField, ValidCell;
  }

  /** The loop remembers a required field exactly if it meets a record of it. */
  lemma {:induction false} SeenIfRecorded(fields: seq<Field>, p: Progress, input: seq<byte>, i: nat)
    requires WellFormed(fields) && ValidProgress(fields, p) && DecRecords(fields, p, input).Ok?
    requires i < |fields| && fields[i].htype.REQUIRED?
    ensures i in DecRecords(fields, p, input).value.seen <==> i in p.seen || !NoRecordOf(fields, p, input, i)
    decreases |input|
  {
    hide DecStep, WellFormed, Valid, Target;
    if input != [] && !p.stopped {
      SeenStep(fields, p, input, i);
      var next := DecStep(fields, p, input);
      SeenIfRecorded(fields, next.value, next.rest, i);
    }
  }

  /** The required fields in front of field i. */
  function RequiredTo(fields: seq<Field>, i: nat): set<nat>
    requires i <= |fields|
  {
    set j: nat | j < i && fields[j].htype.REQUIRED?
  }

  lemma {:induction false} RequiredCounted(fields: seq<Field>, i: nat)
    requires i <= |fields|
    ensures RequiredBefore(fields, i) == |RequiredTo(fields, i)|
    decreases i
  {
    if i == 0 {
      assert RequiredTo(fields, 0) == {};
    } else {
      RequiredCounted(fields, i - 1);
      var one: set<nat> := if fields[i - 1].htype.REQUIRED? then {i - 1} else {};
      assert RequiredTo(fields, i) == RequiredTo(fields, i - 1) + one;
    }
  }

  /** A message is rejected if it has no record of a required field that is one of the first 64. */
  lemma MissingIsRejected(fields: seq<Field>, c: seq<Cell>, input: seq<byte>, i: nat)
    requires WellFormed(fields) && Valid(fields, c)
    requires i < |fields| && fields[i].htype.REQUIRED? && |RequiredTo(fields, i)| < 64
    requires NoRecordOf(fields, Start(c), input, i)
    ensures DecMessage(fields, c, input).None?
  {
    RequiredCounted(fields, i);
    hide WellFormed, Valid, NoRecordOf, DecRecords, RequiredBefore;
    if DecRecords(fields, Start(c), input).Ok? {
      SeenIfRecorded(fields, Start(c), input, i);
    }
  }

  /** Without fixed-count fields that is the only reason for which it can be, once the loop has ended well. */
  lemma AcceptedIfComplete(fields: seq<Field>, c: seq<Cell>, input: seq<byte>)
    requires WellFormed(fields) && Valid(fields, c) && NoFixed(fields)
    ensures DecMessage(fields, c, input).Some?
       <==> && DecRecords(fields, Start(c), input).Ok?
            && forall i {:trigger fields[i]} | 0 <= i < |fields| ::
                 fields[i].htype.REQUIRED? && |RequiredTo(fields, i)| < 64 ==> !NoRecordOf(fields, Start(c), input, i)
  {
    var r := DecRecords(fields, Start(c), input);
    if r.Ok? {
      assert ValidProgress(fields, r.value) && r.value.current == None;
      forall i | 0 <= i < |fields|
        ensures RequiredBefore(fields, i) == |RequiredTo(fields, i)|
        ensures fields[i].htype.REQUIRED? ==> (i in r.value.seen <==> !NoRecordOf(fields, Start(c), input, i))
      {
        RequiredCounted(fields, i);
        if fields[i].htype.REQUIRED? {
          SeenIfRecorded(fields, Start(c), input, i);
        }
      }
    }
    hide WellFormed, Valid, NoRecordOf, DecRecords, RequiredBefore, RequiredTo;
  }

  // ----- fixed-count arrays -----

  /** The array has all its elements, or is the one being received. */
  ghost predicate FullOrCurrent(fields: seq<Field>, p: Progress, i: nat)
    requires i < |fields| == |p.cells|
  {
    p.current == Some(i) || (p.cells[Home(fields, i)].Many? && |p.cells[Home(fields, i)].items| == fields[i].arraySize)
  }

  lemma FixedStep(fields: seq<Field>, p: Progress, input: seq<byte>, i: nat)
    requires WellFormed(fields) && ValidProgress(fields, p) && DecStep(fields, p, input).Ok?
    requires i < |fields| == |p.cells| && fields[i].FixedCount()
    requires FullOrCurrent(fields, p, i) || Target(fields, input) == Some(i)
    ensures |DecStep(fields, p, input).value.cells| == |fields|
    ensures FullOrCurrent(fields, DecStep(fields, p, input).value, i)
  {
    hide ReadTag, SkipField, DecField, WellFormedField, ValidCell;
  }

  lemma {:induction false} FixedLoop(fields: seq<Field>, p: Progress, input: seq<byte>, i: nat)
    requires WellFormed(fields) && ValidProgress(fields, p) && DecRecords(fields, p, input).Ok?
    requires i < |fields| == |p.cells| && fields[i].FixedCount()
    requires FullOrCurrent(fields, p, i) || !NoRecordOf(fields, p, input, i)
    ensures |DecRecords(fields, p, input).value.cells| == |fields|
    ensures FullOrCurrent(fields, DecRecords(fields, p, input).value, i)
    decreases |input|
  {
    hide DecStep, WellFormed, Valid, Target, FullOrCurrent;
    if input != [] && !p.stopped {
      var next := DecStep(fields, p, input);
      FieldCount(fields, next.value.cells);
      if FullOrCurrent(fields, p, i) || Target(fields, input) == Some(i) {
        FixedStep(fields, p, input, i);
      }
      FixedLoop(fields, next.value, next.rest, i);
    }
  }

  /** After decoding, a fixed-count array of which there was any record has all its elements. */
  lemma FixedIsFull(fields: seq<Field>, c: seq<Cell>, input: seq<byte>, i: nat)
    requires WellFormed(fields) && Valid(fields, c) && i < |fields| && fields[i].FixedCount()
    requires DecMessage(fields, c, input).Some? && !NoRecordOf(fields, Start(c), input, i)
    ensures var d := DecMessage(fields, c, input).value;
            |d| == |fields| && d[Home(fields, i)].Many? && |d[Home(fields, i)].items| == fields[i].arraySize
  {
    FieldCount(fields, c);
    FixedLoop(fields, Start(c), input, i);
    hide WellFormed, Valid, NoRecordOf, DecRecords, RequiredSeen, Home;
  }

  // ----- the end of a message -----

  /** A zero byte where a tag should be ends the message, whatever follows. */
  lemma ZeroTagEnds(fields: seq<Field>, c: seq<Cell>, records: seq<seq<byte>>, b: seq<byte>)
    requires WellFormed(fields) && Valid(fields, c)
    requires forall k | 0 <= k < |records| :: WholeRecord(fields, records[k])
    ensures DecMessage(fields, c, Joined(records) + ([0] + b)) == DecMessage(fields, c, Joined(records))
  {
    hide DecRecords, WellFormed, Valid, WholeRecord;
    WholeRecordsEnd(fields, Start(c), records);
    LoopOnConcatenation(fields, Start(c), Joined(records), [0] + b);
    var r := DecRecords(fields, Start(c), Joined(records));
    if r.Ok? {
      ZeroTagStops(fields, r.value, b);
      FieldCount(fields, r.value.cells);
    }
  }

  lemma ZeroTagStops(fields: seq<Field>, p: Progress, b: seq<byte>)
    requires WellFormed(fields) && ValidProgress(fields, p) && !p.stopped
    ensures DecRecords(fields, p, [0] + b) == Ok(p.(stopped := true), b)
  {
    assert ([0] + b)[0] == 0 && ([0] + b)[1..] == b;
    assert ReadTag([0] + b) == Ok(Tag.End, b);
    hide ReadTag, WellFormed, Valid;
  }

  /** A message that is cut off inside a record is rejected. */
  lemma CutOff(fields: seq<Field>, c: seq<Cell>, records: seq<seq<byte>>, r: seq<byte>, n: nat)
    requires WellFormed(fields) && Valid(fields, c) && WholeRecord(fields, r) && 0 < n < |r|
    requires forall k | 0 <= k < |records| :: WholeRecord(fields, records[k])
    ensures DecMessage(fields, c, Joined(records) + r[..n]).None?
  {
    WholeRecordsEnd(fields, Start(c), records);
    LoopOnConcatenation(fields, Start(c), Joined(records), r[..n]);
    var s := DecRecords(fields, Start(c), Joined(records));
    hide DecRecords, WellFormed, Valid, WholeRecord;
    if s.Ok? {
      WholeIsComplete(fields, s.value, r);
      CutRecord(fields, s.value, r, n);
    }
  }

  lemma CutRecord(fields: seq<Field>, p: Progress, r: seq<byte>, n: nat)
    requires WellFormed(fields) && ValidProgress(fields, p) && !p.stopped
    requires Complete(fields, p, r) && 0 < n < |r|
    ensures !DecRecords(fields, p, r[..n]).Ok?
  {
    hide DecStep, WellFormed, Valid;
    assert r[..n] + r[n..] == r;
    DecStepExtends(fields, p, r[..n], r[n..]);
  }

  /** A record of an unknown field with a wire type that does not exist is rejected. */
  lemma UnknownWireType(fields: seq<Field>, p: Progress, wireType: nat, tag: nat, payload: seq<byte>)
    requires WellFormed(fields) && ValidProgress(fields, p) && !p.stopped
    requires wireType in {3, 4, 6, 7} && 1 <= tag < 0x2000_0000
    requires forall i | 0 <= i < |fields| :: fields[i].tag != tag
    ensures DecRecords(fields, p, EncTag(wireType, tag) + payload).Malformed?
  {
    ReadTagInverts(wireType, tag, payload);
    hide EncTag, ReadTag, WellFormed, Valid;
    assert DecStep(fields, p, EncTag(wireType, tag) + payload) == DecRecord(fields, p, Tag.Tag(tag, wireType), payload);
  }
}
