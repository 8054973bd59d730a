/** Decoding what was encoded. The main theorem: decoding the bytes of a struct m into a struct c
  * merges m into c, and fails exactly when the merge does. */
module RoundTrip {
  import opened Varints
  import opened Schema
  import opened Scalars
  import opened Encode
  import opened Decode
  import opened Options
  import opened Merge

  // ----- lengths -----

  /** Every length prefix in the encoding fits into the 32 bits that the decoder reads it with. */
  predicate ShortValue(f: Field, v: Value)
    decreases v
  {
    v.Message? && f.ptr.Submessage? && |v.cells| == |f.ptr.fields| ==>
      |EncMessage(f.ptr.fields, v.cells)| < TWO_32 && Short(f.ptr.fields, v.cells, 0)
  }

  predicate ShortItems(f: Field, items: seq<Value>)
    decreases items
  {
    items != [] ==> ShortValue(f, items[0]) && ShortItems(f, items[1..])
  }

  predicate ShortCell(f: Field, c: Cell)
    decreases c
  {
    Written(f, c) ==>
      if !c.Many? then ShortValue(f, c.value)
      else if f.ltype.Packable() then |EncPacked(f, c.items)| < TWO_32
      else ShortItems(f, c.items)
  }

  /** The same for a struct, from field i on. */
  predicate Short(fields: seq<Field>, m: seq<Cell>, i: nat)
    requires i <= |fields| == |m|
    decreases m, |fields| - i
  {
    i < |fields| ==> ShortCell(fields[i], m[Home(fields, i)]) && Short(fields, m, i + 1)
  }

  function When<T>(b: bool, r: Option<T>): Option<T> {
    if b then r else None
  }

  // ----- pieces -----

  lemma ReadTagInverts(wireType: nat, tag: nat, rest: seq<byte>)
    requires wireType < 8 && 1 <= tag < 0x2000_0000
    ensures ReadTag(EncTag(wireType, tag) + rest) == Ok(Tag.Tag(tag, wireType), rest)
  {
    hide ReadVarint32, EncVarint;
    var v := tag * 8 + wireType;
    ModSmall(v);
    ReadVarint32Inverts(v, rest);
  }

  lemma ReadDelimitedInverts(body: seq<byte>, rest: seq<byte>)
    requires |body| < TWO_32
    ensures ReadDelimited(EncDelimited(body) + rest) == Ok(body, rest)
  {
    hide ReadVarint32, EncVarint;
    ReadVarint32Inverts(|body|, body + rest);
    assert EncDelimited(body) + rest == EncVarint(|body|) + (body + rest);
  }

  /** A longer body is rejected, because its length is. */
  lemma ReadDelimitedTooLong(body: seq<byte>, rest: seq<byte>)
    requires TWO_32 <= |body| < TWO_63
    ensures ReadDelimited(EncDelimited(body) + rest) == Malformed
  {
    hide ReadVarint32, EncVarint, Accepts32;
    ReadVarint32Canonical(|body|, body + rest);
    ReadVarint32Promises(|body|);
    assert EncDelimited(body) + rest == EncVarint(|body|) + (body + rest);
  }

  lemma ReadCharsInverts(f: Field, bs: seq<byte>, rest: seq<byte>)
    requires f.ltype.BYTES? || f.ltype.STRING? || f.ltype.FIXED_LENGTH_BYTES?
    requires f.dataSize <= PB_SIZE_MAX && ValidValue(f, Chars(bs))
    ensures ReadChars(f, EncDelimited(bs) + rest) == Ok(bs, rest)
  {
    hide ReadVarint32, EncVarint;
    ReadVarint32Inverts(|bs|, bs + rest);
    assert EncDelimited(bs) + rest == EncVarint(|bs|) + (bs + rest);
    ModSmall(|bs| + 1);
    if |bs| == 0 { assert Zeros(0) == bs; }
  }

  lemma {:induction false} ReadPackedInverts(f: Field, items: seq<Value>, more: seq<Value>)
    requires WellFormedField(f) && f.ltype.Packable() && |items| <= f.arraySize
    requires forall k | 0 <= k < |items| :: ValidValue(f, items[k])
    requires forall k | 0 <= k < |more| :: ValidValue(f, more[k])
    ensures ReadPacked(f, items, EncPacked(f, more))
         == if |items| + |more| <= f.arraySize then Some(items + more) else None
    decreases |more|
  {
    hide ReadNumber, EncNumber, ValidNumber;
    if more == [] {
      assert items + more == items;
    } else {
      var n := more[0].n;
      var rest := EncPacked(f, more[1..]);
      assert EncPacked(f, more) == EncNumber(f.ltype, n) + rest;
      NumberRoundTrip(f.ltype, f.dataSize, n, rest);
      if |items| < f.arraySize {
        ReadPackedInverts(f, items + [more[0]], more[1..]);
        assert items + [more[0]] + more[1..] == items + more;
      }
    }
  }

  lemma {:induction false} NormNumbers(f: Field, items: seq<Value>)
    requires f.ltype.Packable() && forall k | 0 <= k < |items| :: ValidValue(f, items[k])
    ensures NormItems(f, items) == items
  {
    if items != [] {
      NormNumbers(f, items[1..]);
    }
  }

  // ----- one turn of the record loop -----

  lemma StepOnTag(fields: seq<Field>, p: Progress, i: nat, wireType: nat, payload: seq<byte>)
    requires WellFormed(fields) && ValidProgress(fields, p) && !p.stopped
    requires i < |fields| && wireType < 8
    ensures DecRecords(fields, p, EncTag(wireType, fields[i].tag) + payload)
         == match DecRecord(fields, p, Tag.Tag(fields[i].tag, wireType), payload)
            case Ok(q, rest) => DecRecords(fields, q, rest)
            case Truncated => Truncated
            case Malformed => Malformed
  {
    hide DecRecord, EncTag, ReadTag;
    assert WellFormedField(fields[i]);
    ReadTagInverts(wireType, fields[i].tag, payload);
  }

  /** The record of a known field: bookkeeping, then its decoder. */
  lemma StepOfField(fields: seq<Field>, p: Progress, i: nat, wireType: nat, payload: seq<byte>)
    requires WellFormed(fields) && ValidProgress(fields, p) && !p.stopped
    requires i < |fields| && wireType < 8 && Enter(fields, p, i).Some?
    ensures WellFormedField(fields[i])
    ensures var q, h := Enter(fields, p, i).value, Home(fields, i);
      && ValidCell(fields[i], q.cells[h])
      && match DecField(fields[i], wireType, q.cells[h], payload)
         case Ok(c, rest) =>
           && ValidProgress(fields, q.(cells := q.cells[h := c]))
           && DecRecords(fields, p, EncTag(wireType, fields[i].tag) + payload)
              == DecRecords(fields, q.(cells := q.cells[h := c]), rest)
         case Truncated => DecRecords(fields, p, EncTag(wireType, fields[i].tag) + payload).Truncated?
         case Malformed => DecRecords(fields, p, EncTag(wireType, fields[i].tag) + payload).Malformed?
  {
    StepOnTag(fields, p, i, wireType, payload);
    FindUnique(fields, i);
    var q, h := Enter(fields, p, i).value, Home(fields, i);
    assert WellFormedField(fields[i]) && ValidCell(fields[i], q.cells[h]);
    hide Enter, DecField, DecRecords, EncTag, FindField, SkipField, WellFormedField, ValidCell, Home;
    match DecField(fields[i], wireType, q.cells[h], payload)
    case Ok(c, rest) => UpdateValid(fields, q.cells, i, c);
    case _ =>
  }

  // ----- values -----

  lemma {:induction false} DecValueInverts(f: Field, prev: Value, v: Value, rest: seq<byte>)
    requires WellFormedField(f) && ValidValue(f, prev) && ValidValue(f, v) && EncodableValue(f, v)
    requires |EncValue(f, v)| < TWO_63
    ensures DecValue(f, prev, EncValue(f, v) + rest)
         == match When(ShortValue(f, v), MergeValue(f, prev, v))
            case Some(w) => Ok(w, rest)
            case None => Malformed
    decreases v, 0
  {
    hide ReadNumber, EncNumber, ReadChars, ReadDelimited, EncDelimited, CString, DecMessage, EncFrom, ValidNumber;
    if f.ltype.Packable() {
      NumberRoundTrip(f.ltype, f.dataSize, v.n, rest);
    } else if f.ltype.SUBMESSAGE? {
      var sub := f.ptr.fields;
      var body := EncMessage(sub, v.cells);
      assert EncValue(f, v) == EncDelimited(body);
      if |body| < TWO_32 {
        ReadDelimitedInverts(body, rest);
        DecMergesMessage(sub, prev.cells, v.cells);
      } else {
        ReadDelimitedTooLong(body, rest);
      }
    } else {
      var bs := if f.ltype.STRING? then CString(v.bs, f.dataSize) else v.bs;
      ReadCharsInverts(f, bs, rest);
    }
  }

  /** What the record loop has done after the records of field i. */
  function AfterField(fields: seq<Field>, p: Progress, i: nat, c: Cell): Progress
    requires i < |fields| == |p.cells|
  {
    Progress(
      p.cells[Home(fields, i) := c],
      if fields[i].htype.REQUIRED? then p.seen + {i} else p.seen,
      if fields[i].FixedCount() then Some(i) else p.current,
      p.stopped)
  }

  lemma AfterFieldValid(fields: seq<Field>, p: Progress, i: nat, c: Cell)
    requires WellFormed(fields) && ValidProgress(fields, p) && i < |fields| && ValidCell(fields[i], c)
    requires fields[i].htype.ONEOF? ==> c.OneOf? && c.which == fields[i].tag
    ensures ValidProgress(fields, AfterField(fields, p, i, c))
  {
    UpdateValid(fields, p.cells, i, c);
  }

  // ----- the records of one field -----

  /** The decoder of a singular field or of the selected member of a union. */
  lemma {:induction false} DecFieldInverts(f: Field, wireType: nat, c: Cell, m: Cell, rest: seq<byte>)
    requires WellFormedField(f) && ValidCell(f, c)
    requires ValidCell(f, m) && EncodableCell(f, m) && Written(f, m) && !m.Many?
    requires |EncValue(f, m.value)| < TWO_63
    ensures DecField(f, wireType, c, EncValue(f, m.value) + rest)
         == match When(ShortCell(f, m), MergeCell(f, c, m))
            case Some(w) => Ok(w, rest)
            case None => Malformed
    decreases m, 1
  {
    hide EncValue, MergeValue, DecValue, ValidValue, EncodableValue, WellFormedField;
    DefaultValueValid(f);
    DecValueInverts(f, if m.OneOf? then Selected(f, c) else c.value, m.value, rest);
  }

  lemma {:induction false} DecSingle(fields: seq<Field>, p: Progress, i: nat, m: Cell, rest: seq<byte>)
    requires WellFormed(fields) && ValidProgress(fields, p) && !p.stopped && i < |fields|
    requires ValidCell(fields[i], m) && EncodableCell(fields[i], m) && Written(fields[i], m) && !m.Many?
    requires |EncField(fields[i], m)| < TWO_63
    ensures WellFormedField(fields[i]) && ValidCell(fields[i], p.cells[Home(fields, i)])
    ensures FieldMerged(fields, p, i, m, rest,
                        When(ShortCell(fields[i], m), MergeCell(fields[i], p.cells[Home(fields, i)], m)))
    decreases m, 2
  {
    hide WellFormed, WellFormedField, ValidCell, Valid, EncValue, EncTag, DecRecords, DecField, MergeCell, Enter,
      Home, EncodableCell, IsDefault;
    var f, h := fields[i], Home(fields, i);
    FieldFacts(fields, p.cells, i);
    var payload := EncValue(f, m.value) + rest;
    assert EncField(f, m) + rest == EncTag(WireType(f.ltype), f.tag) + payload;
    NotFixedCount(f, m);
    DecFieldInverts(f, WireType(f.ltype), p.cells[h], m, rest);
    EnterPlain(fields, p, i);
    StepOfField(fields, p, i, WireType(f.ltype), payload);
    if MergeCell(f, p.cells[h], m).Some? {
      AfterFieldValid(fields, p, i, MergeCell(f, p.cells[h], m).value);
    }
  }

  lemma NotFixedCount(f: Field, m: Cell)
    requires ValidCell(f, m) && !m.Many?
    ensures !f.FixedCount()
  {
  }

  lemma FieldFacts(fields: seq<Field>, cells: seq<Cell>, i: nat)
    requires WellFormed(fields) && Valid(fields, cells) && i < |fields|
    ensures WellFormedField(fields[i]) && |cells| == |fields| && ValidCell(fields[i], cells[Home(fields, i)])
  {
  }

  lemma EnterPlain(fields: seq<Field>, p: Progress, i: nat)
    requires WellFormed(fields) && ValidProgress(fields, p) && i < |fields|
    requires fields[i].FixedCount() ==> p.current == Some(i)
    ensures Enter(fields, p, i) == Some(p.(seen := if fields[i].htype.REQUIRED? then p.seen + {i} else p.seen))
  {
  }

  /** The record loop, at the records of field i, puts the merged cell in place and goes on, or fails. */
  ghost predicate FieldMerged(fields: seq<Field>, p: Progress, i: nat, m: Cell, rest: seq<byte>, w: Option<Cell>)
    requires WellFormed(fields) && ValidProgress(fields, p) && i < |fields|
  {
    match w
    case Some(c) =>
      && ValidProgress(fields, AfterField(fields, p, i, c))
      && DecRecords(fields, p, EncField(fields[i], m) + rest) == DecRecords(fields, AfterField(fields, p, i, c), rest)
    case None => DecRecords(fields, p, EncField(fields[i], m) + rest).Malformed?
  }

  /** A record of a fixed-count array that is not yet being received restarts the array. */
  lemma EnterFixed(fields: seq<Field>, p: Progress, i: nat)
    requires WellFormed(fields) && ValidProgress(fields, p) && i < |fields| && fields[i].FixedCount()
    requires p.current != Some(i) && CurrentFull(fields, p)
    ensures var h, q := Home(fields, i), p.(cells := p.cells[Home(fields, i) := Many([])], current := Some(i));
      Enter(fields, p, i) == Some(q) && ValidProgress(fields, q) && Enter(fields, q, i) == Some(q)
  {
    UpdateValid(fields, p.cells, i, Many([]));
  }

  /** What the first record of an array finds: nothing yet, for a fixed-count array. */
  function Entered(fields: seq<Field>, p: Progress, i: nat): Progress
    requires i < |fields| == |p.cells|
  {
    if fields[i].FixedCount() then p.(cells := p.cells[Home(fields, i) := Many([])], current := Some(i)) else p
  }

  lemma EnterArray(fields: seq<Field>, p: Progress, i: nat)
    requires WellFormed(fields) && ValidProgress(fields, p) && i < |fields| && fields[i].htype.REPEATED?
    requires fields[i].FixedCount() ==> p.current != Some(i) && CurrentFull(fields, p)
    ensures var q := Entered(fields, p, i);
      && Enter(fields, p, i) == Some(q) && ValidProgress(fields, q) && Enter(fields, q, i) == Some(q)
      && q.cells[Home(fields, i)].Many?
  {
    if fields[i].FixedCount() {
      EnterFixed(fields, p, i);
    } else {
      EnterPlain(fields, p, i);
      FieldFacts(fields, p.cells, i);
    }
  }

  lemma {:induction false} DecPackedField(fields: seq<Field>, p: Progress, i: nat, m: Cell, rest: seq<byte>)
    requires WellFormed(fields) && ValidProgress(fields, p) && !p.stopped && i < |fields| && fields[i].ltype.Packable()
    requires ValidCell(fields[i], m) && EncodableCell(fields[i], m) && Written(fields[i], m) && m.Many?
    requires fields[i].FixedCount() ==> p.current != Some(i) && CurrentFull(fields, p)
    requires |EncField(fields[i], m)| < TWO_63
    ensures WellFormedField(fields[i]) && ValidCell(fields[i], p.cells[Home(fields, i)])
    ensures FieldMerged(fields, p, i, m, rest,
                        When(ShortCell(fields[i], m), MergeCell(fields[i], p.cells[Home(fields, i)], m)))
  {
    hide WellFormed, WellFormedField, Valid, ValidValue, EncTag, DecRecords, Enter, Home, EncodableCell, IsDefault,
      EncPacked,
      EncDelimited, ReadDelimited, ReadPacked, NormItems;
    var f, h := fields[i], Home(fields, i);
    FieldFacts(fields, p.cells, i);
    EnterArray(fields, p, i);
    var q := Entered(fields, p, i);
    var body := EncPacked(f, m.items);
    var payload := EncDelimited(body) + rest;
    assert EncField(f, m) + rest == EncTag(WT_STRING, f.tag) + payload;
    FieldFacts(fields, q.cells, i);
    if |body| < TWO_32 {
      ReadDelimitedInverts(body, rest);
    } else {
      ReadDelimitedTooLong(body, rest);
    }
    ReadPackedInverts(f, q.cells[h].items, m.items);
    NormNumbers(f, m.items);
    StepOfField(fields, p, i, WT_STRING, payload);
    assert [] + m.items == m.items;
    if MergeCell(f, p.cells[h], m).Some? {
      var w := MergeCell(f, p.cells[h], m).value;
      assert q.cells[h := w] == p.cells[h := w];
      AfterFieldValid(fields, p, i, w);
    }
  }

  /** The array cell of field i with more items appended. */
  function Appended(fields: seq<Field>, p: Progress, i: nat, items: seq<Value>): Progress
    requires i < |fields| == |p.cells| && p.cells[Home(fields, i)].Many?
  {
    p.(cells := p.cells[Home(fields, i) := Many(p.cells[Home(fields, i)].items + items)])
  }

  /** One record for each item: each is decoded by itself and appended. */
  lemma {:induction false} DecItems(fields: seq<Field>, p: Progress, i: nat, items: seq<Value>, rest: seq<byte>)
    requires WellFormed(fields) && ValidProgress(fields, p) && !p.stopped && i < |fields|
    requires fields[i].htype.REPEATED? && !fields[i].ltype.Packable() && Enter(fields, p, i) == Some(p)
    requires forall k | 0 <= k < |items| :: ValidValue(fields[i], items[k]) && EncodableValue(fields[i], items[k])
    requires |EncRecords(fields[i], items)| < TWO_63
    ensures p.cells[Home(fields, i)].Many?
    ensures if |p.cells[Home(fields, i)].items| + |items| <= fields[i].arraySize && ShortItems(fields[i], items) then
              var q := Appended(fields, p, i, NormItems(fields[i], items));
              && ValidProgress(fields, q)
              && DecRecords(fields, p, EncRecords(fields[i], items) + rest) == DecRecords(fields, q, rest)
            else DecRecords(fields, p, EncRecords(fields[i], items) + rest).Malformed?
    decreases items, 3
  {
    hide WellFormed, WellFormedField, Valid, ValidValue, EncTag, EncValue, DecRecords, Enter, Home, EncodableValue,
      NormValue;
    var f, h := fields[i], Home(fields, i);
    FieldFacts(fields, p.cells, i);
    var c := p.cells[h];
    if items == [] {
      assert EncRecords(f, items) + rest == rest;
      assert c.items + [] == c.items && p.cells[h := c] == p.cells;
    } else {
      ItemStep(fields, p, i, items, rest);
      if |c.items| < f.arraySize && ShortValue(f, items[0]) {
        var q := Appended(fields, p, i, [NormValue(f, items[0])]);
        DecItems(fields, q, i, items[1..], rest);
        assert c.items + [NormValue(f, items[0])] + NormItems(f, items[1..]) == c.items + NormItems(f, items);
        if |c.items| + |items| <= f.arraySize {
          assert Appended(fields, q, i, NormItems(f, items[1..])) == Appended(fields, p, i, NormItems(f, items));
        }
      }
    }
  }

  lemma {:induction false} ItemStep(fields: seq<Field>, p: Progress, i: nat, items: seq<Value>, rest: seq<byte>)
    requires WellFormed(fields) && ValidProgress(fields, p) && !p.stopped && i < |fields| && items != []
    requires fields[i].htype.REPEATED? && !fields[i].ltype.Packable() && Enter(fields, p, i) == Some(p)
    requires ValidValue(fields[i], items[0]) && EncodableValue(fields[i], items[0])
    requires |EncRecords(fields[i], items)| < TWO_63
    ensures p.cells[Home(fields, i)].Many?
    ensures if |p.cells[Home(fields, i)].items| < fields[i].arraySize && ShortValue(fields[i], items[0]) then
              var q := Appended(fields, p, i, [NormValue(fields[i], items[0])]);
              && ValidProgress(fields, q) && Enter(fields, q, i) == Some(q)
              && DecRecords(fields, p, EncRecords(fields[i], items) + rest)
                 == DecRecords(fields, q, EncRecords(fields[i], items[1..]) + rest)
            else DecRecords(fields, p, EncRecords(fields[i], items) + rest).Malformed?
    decreases items, 2
  {
    hide WellFormed, WellFormedField, Valid, ValidValue, EncTag, DecRecords, Home, EncodableValue, NormItems,
      EncValue, NormValue, MergeValue, DecValue, DefaultValue;
    var f, h := fields[i], Home(fields, i);
    FieldFacts(fields, p.cells, i);
    var more := EncRecords(f, items[1..]) + rest;
    var payload := EncValue(f, items[0]) + more;
    assert EncRecords(f, items) + rest == EncTag(WireType(f.ltype), f.tag) + payload;
    StepOfField(fields, p, i, WireType(f.ltype), payload);
    MergeIntoDefault(f, items[0]);
    DecValueInverts(f, DefaultValue(f), items[0], more);
  }

  lemma {:induction false} DecUnpackedField(fields: seq<Field>, p: Progress, i: nat, m: Cell, rest: seq<byte>)
    requires WellFormed(fields) && ValidProgress(fields, p) && !p.stopped && i < |fields| && !fields[i].ltype.Packable()
    requires ValidCell(fields[i], m) && EncodableCell(fields[i], m) && Written(fields[i], m) && m.Many?
    requires fields[i].FixedCount() ==> p.current != Some(i) && CurrentFull(fields, p)
    requires |EncField(fields[i], m)| < TWO_63
    ensures WellFormedField(fields[i]) && ValidCell(fields[i], p.cells[Home(fields, i)])
    ensures FieldMerged(fields, p, i, m, rest,
                        When(ShortCell(fields[i], m), MergeCell(fields[i], p.cells[Home(fields, i)], m)))
    decreases m, 4
  {
    hide WellFormed, WellFormedField, Valid, ValidValue, EncTag, DecRecords, Enter, Home, IsDefault, EncRecords,
      NormItems, EncodableValue;
    var f, h := fields[i], Home(fields, i);
    FieldFacts(fields, p.cells, i);
    EnterArray(fields, p, i);
    var q := Entered(fields, p, i);
    FirstRecord(fields, p, i, m.items, rest);
    DecItems(fields, q, i, m.items, rest);
    assert [] + NormItems(f, m.items) == NormItems(f, m.items);
    if MergeCell(f, p.cells[h], m).Some? {
      var w := MergeCell(f, p.cells[h], m).value;
      assert q.cells[h := w] == p.cells[h := w];
      AfterFieldValid(fields, p, i, w);
    }
  }

  /** Restarting a fixed-count array before its first record makes no difference. */
  lemma FirstRecord(fields: seq<Field>, p: Progress, i: nat, items: seq<Value>, rest: seq<byte>)
    requires WellFormed(fields) && ValidProgress(fields, p) && !p.stopped && i < |fields| && fields[i].htype.REPEATED?
    requires fields[i].FixedCount() ==> p.current != Some(i) && CurrentFull(fields, p)
    requires items != []
    ensures ValidProgress(fields, Entered(fields, p, i))
    ensures DecRecords(fields, p, EncRecords(fields[i], items) + rest)
         == DecRecords(fields, Entered(fields, p, i), EncRecords(fields[i], items) + rest)
  {
    hide WellFormed, WellFormedField, Valid, EncTag, DecRecords, Enter, Home, EncValue, DecField, ValidCell;
    var f := fields[i];
    FieldFacts(fields, p.cells, i);
    EnterArray(fields, p, i);
    var payload := EncValue(f, items[0]) + (EncRecords(f, items[1..]) + rest);
    assert EncRecords(f, items) + rest == EncTag(WireType(f.ltype), f.tag) + payload;
    StepOfField(fields, p, i, WireType(f.ltype), payload);
    StepOfField(fields, Entered(fields, p, i), i, WireType(f.ltype), payload);
  }

  lemma {:induction false} DecFieldRecords(fields: seq<Field>, p: Progress, i: nat, m: Cell, rest: seq<byte>)
    requires WellFormed(fields) && ValidProgress(fields, p) && !p.stopped && i < |fields|
    requires ValidCell(fields[i], m) && EncodableCell(fields[i], m) && Written(fields[i], m)
    requires fields[i].FixedCount() ==> p.current != Some(i) && CurrentFull(fields, p)
    requires |EncField(fields[i], m)| < TWO_63
    ensures WellFormedField(fields[i]) && ValidCell(fields[i], p.cells[Home(fields, i)])
    ensures FieldMerged(fields, p, i, m, rest,
                        When(ShortCell(fields[i], m), MergeCell(fields[i], p.cells[Home(fields, i)], m)))
    decreases m, 5
  {
    if !m.Many? {
      DecSingle(fields, p, i, m, rest);
    } else if fields[i].ltype.Packable() {
      DecPackedField(fields, p, i, m, rest);
    } else {
      DecUnpackedField(fields, p, i, m, rest);
    }
  }

  // ----- all the fields -----

  function RequiredFrom(fields: seq<Field>, i: nat): set<nat> {
    set j | i <= j < |fields| && fields[j].htype.REQUIRED?
  }

  /** A fixed-count array that is complete stays so while other fields are decoded. */
  lemma StaysFull(fields: seq<Field>, p: Progress, i: nat, m: Cell)
    requires WellFormed(fields) && ValidProgress(fields, p) && CurrentFull(fields, p) && i < |fields|
    requires p.current.Some? ==> p.current.value < i
    requires ValidCell(fields[i], p.cells[Home(fields, i)]) && ValidCell(fields[i], m)
    requires EncodableCell(fields[i], m) && Written(fields[i], m)
    requires WellFormedField(fields[i]) && MergeCell(fields[i], p.cells[Home(fields, i)], m).Some?
    ensures CurrentFull(fields, AfterField(fields, p, i, MergeCell(fields[i], p.cells[Home(fields, i)], m).value))
  {
    hide EncodableValue, ValidValue, MergeValue;
    if !fields[i].FixedCount() && p.current.Some? {
      var j := p.current.value;
      assert fields[j].FixedCount() && Home(fields, j) == j;
      assert Home(fields, i) != j;
    }
  }

  /** The record loop on the fields of m from the i-th on. */
  ghost predicate LoopMerges(fields: seq<Field>, p: Progress, m: seq<Cell>, i: nat, r: Option<seq<Cell>>)
    requires WellFormed(fields) && ValidProgress(fields, p) && i <= |fields| == |m|
  {
    var run := DecRecords(fields, p, EncFrom(fields, m, i));
    match r
    case Some(cells) =>
      && run.Ok? && run.rest == [] && !run.value.stopped
      && run.value.cells == cells && CurrentFull(fields, run.value)
      && run.value.seen == p.seen + RequiredFrom(fields, i)
    case None => run.Malformed?
  }

  lemma {:induction false} DecMergesFrom(fields: seq<Field>, p: Progress, m: seq<Cell>, i: nat)
    requires WellFormed(fields) && ValidProgress(fields, p) && !p.stopped && i <= |fields|
    requires CurrentFull(fields, p) && (p.current.Some? ==> p.current.value < i)
    requires Valid(fields, m) && Encodable(fields, m) && |EncFrom(fields, m, i)| < TWO_63
    ensures LoopMerges(fields, p, m, i, When(Short(fields, m, i), MergeFrom(fields, p.cells, m, i)))
    decreases m, |fields| - i
  {
    hide WellFormed, WellFormedField, EncField, Home, MergeCell, Written, Enter, ValidCell, EncodableCell,
      CurrentFull, DecRecords, ShortCell, Continues, EncodableCell;
    if i == |fields| {
      NoMoreFields(fields, p);
    } else {
      var f, h := fields[i], Home(fields, i);
      FieldFacts(fields, p.cells, i);
      FieldFacts(fields, m, i);
      assert EncodableCell(f, m[h]);
      var rest := EncFrom(fields, m, i + 1);
      WrittenHasBytes(f, m[h]);
      if !Written(f, m[h]) {
        assert EncFrom(fields, m, i) == rest;
        RequiredWritten(fields, m, i);
        UnwrittenIsShort(f, m[h]);
        DecMergesFrom(fields, p, m, i + 1);
      } else {
        DecFieldRecords(fields, p, i, m[h], rest);
        if ShortCell(f, m[h]) && MergeCell(f, p.cells[h], m[h]).Some? {
          var w := MergeCell(f, p.cells[h], m[h]).value;
          StaysFull(fields, p, i, m[h]);
          RequiredWritten(fields, m, i);
          DecMergesFrom(fields, AfterField(fields, p, i, w), m, i + 1);
        }
      }
    }
  }

  lemma UnwrittenIsShort(f: Field, c: Cell)
    requires !Written(f, c)
    ensures ShortCell(f, c)
  {
  }

  lemma NoMoreFields(fields: seq<Field>, p: Progress)
    requires WellFormed(fields) && ValidProgress(fields, p)
    ensures DecRecords(fields, p, []) == Ok(p, []) && RequiredFrom(fields, |fields|) == {}
  {
  }

  lemma RequiredWritten(fields: seq<Field>, m: seq<Cell>, i: nat)
    requires Valid(fields, m) && i < |fields|
    ensures RequiredFrom(fields, i) == (if fields[i].htype.REQUIRED? then {i} else {}) + RequiredFrom(fields, i + 1)
    ensures fields[i].htype.REQUIRED? ==> Written(fields[i], m[Home(fields, i)])
  {
    assert ValidCell(fields[i], m[Home(fields, i)]);
  }

  /** The main theorem: decoding the bytes of m into c merges m into c. It fails exactly when the merge
    * does, that is when some array has no room for the elements of both, or when a length prefix in the
    * encoding does not fit into 32 bits. */
  lemma {:induction false} DecMergesMessage(fields: seq<Field>, c: seq<Cell>, m: seq<Cell>)
    requires WellFormed(fields) && Valid(fields, c)
    requires Valid(fields, m) && Encodable(fields, m) && |EncMessage(fields, m)| < TWO_63
    ensures |m| == |fields|
    ensures DecMessage(fields, c, EncMessage(fields, m)) == When(Short(fields, m, 0), MergeFrom(fields, c, m, 0))
    decreases m, |fields| + 1
  {
    hide DecRecords, EncFrom, Encodable, WellFormed, Valid, Short;
    FieldCount(fields, c);
    FieldCount(fields, m);
    DecMergesFrom(fields, Start(c), m, 0);
  }

  lemma FieldCount(fields: seq<Field>, c: seq<Cell>)
    requires Valid(fields, c)
    ensures |c| == |fields|
  {
  }

  /** Round trip: a struct that can be encoded is decoded to its normal form if and only if every length
    * prefix fits into 32 bits; otherwise its encoding is rejected. */
  lemma RoundTrip(fields: seq<Field>, m: seq<Cell>)
    requires WellFormed(fields) && Valid(fields, m) && Encodable(fields, m) && |EncMessage(fields, m)| < TWO_63
    ensures |m| == |fields|
    ensures DecFresh(fields, EncMessage(fields, m)) == if Short(fields, m, 0) then Some(Normalize(fields, m)) else None
  {
    hide Short;
    DefaultsValid(fields);
    DecMergesMessage(fields, Defaults(fields), m);
    MergeIntoDefaults(fields, m);
  }

  /** For example, a packed array of 2^30 numbers of 32 bits can be encoded, but not be decoded. */
  lemma TooLongToRead() returns (fields: seq<Field>, m: seq<Cell>)
    ensures WellFormed(fields) && Valid(fields, m) && Encodable(fields, m)
    ensures |m| == |fields| && !Short(fields, m, 0) && DecFresh(fields, EncMessage(fields, m)) == None
  {
    var f, items := LongArray();
    fields, m := [f], [Many(items)];
    assert Home(fields, 0) == 0;
    hide ValidCell, EncodableCell, ShortCell, EncField;
    assert WellFormed(fields) && Valid(fields, m) && Encodable(fields, m) && !Short(fields, m, 0);
    assert EncFrom(fields, m, 1) == [];
    assert EncMessage(fields, m) == EncField(f, m[0]) + [];
    hide *;
    RoundTrip(fields, m);
  }

  lemma LongArray() returns (f: Field, items: seq<Value>)
    ensures f.htype.REPEATED? && WellFormedField(f)
    ensures ValidCell(f, Many(items)) && EncodableCell(f, Many(items)) && !ShortCell(f, Many(items))
    ensures |EncField(f, Many(items))| < TWO_63
  {
    f := Field(1, FIXED32, REPEATED, 4, -4, 4, 0x4000_0000, Null);
    items := seq(0x4000_0000, _ => Number(0));
    assert forall k | 0 <= k < |items| :: ValidValue(f, items[k]) && EncodableValue(f, items[k]);
    PackedLength(f, items);
    hide EncPacked;
    assert EncField(f, Many(items)) == EncTag(WT_STRING, f.tag) + EncDelimited(EncPacked(f, items));
    EncVarintFits(|EncPacked(f, items)|);
    EncVarintFits((f.tag * 8 + WT_STRING) % TWO_64);
  }

  /** In particular every message of less than 4 GB survives. */
  lemma {:induction false} SmallIsShort(fields: seq<Field>, m: seq<Cell>, i: nat)
    requires i <= |fields| == |m| && |EncFrom(fields, m, i)| < TWO_32
    ensures Short(fields, m, i)
    decreases m, |fields| - i
  {
    hide EncField, ShortCell, Home;
    if i < |fields| {
      SmallCellIsShort(fields[i], m[Home(fields, i)]);
      SmallIsShort(fields, m, i + 1);
    }
  }

  lemma {:induction false} SmallCellIsShort(f: Field, c: Cell)
    requires |EncField(f, c)| < TWO_32
    ensures ShortCell(f, c)
    decreases c
  {
    hide EncRecords, EncPacked, EncTag;
    if Written(f, c) {
      if !c.Many? {
        SmallValueIsShort(f, c.value);
      } else if f.ltype.Packable() {
        assert EncField(f, c) == EncTag(WT_STRING, f.tag) + EncDelimited(EncPacked(f, c.items));
      } else {
        assert EncField(f, c) == EncRecords(f, c.items);
        SmallItemsAreShort(f, c.items);
      }
    }
  }

  lemma {:induction false} SmallItemsAreShort(f: Field, items: seq<Value>)
    requires |EncRecords(f, items)| < TWO_32
    ensures ShortItems(f, items)
    decreases items
  {
    if items != [] {
      SmallValueIsShort(f, items[0]);
      SmallItemsAreShort(f, items[1..]);
    }
  }

  lemma {:induction false} SmallValueIsShort(f: Field, v: Value)
    requires |EncValue(f, v)| < TWO_32
    ensures ShortValue(f, v)
    decreases v
  {
    if v.Message? && f.ptr.Submessage? && |v.cells| == |f.ptr.fields| {
      SmallIsShort(f.ptr.fields, v.cells, 0);
    }
  }
}
