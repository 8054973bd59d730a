/** Laws of the record loop for arbitrary input: concatenation, unknown fields, order of records, and
  * packed against unpacked arrays. */
module Records {
  import opened Varints
  import opened Schema
  import opened Scalars
  import opened Encode
  import opened Decode
  import opened Options
  import opened Merge
  import opened RoundTrip

  // ----- no decoder looks past what it consumes -----

  lemma ReadTagExtends(a: seq<byte>, b: seq<byte>)
    ensures Extends(ReadTag(a), ReadTag(a + b), b)
  {
    hide ReadVarint32;
    ReadVarint32Extends(a, b);
  }

  lemma ReadDelimitedExtends(a: seq<byte>, b: seq<byte>)
    ensures Extends(ReadDelimited(a), ReadDelimited(a + b), b)
  {
    hide ReadVarint32;
    ReadVarint32Extends(a, b);
    var r := ReadVarint32(a);
    if r.Ok? && |r.rest| >= r.value {
      assert (r.rest + b)[..r.value] == r.rest[..r.value];
      assert (r.rest + b)[r.value..] == r.rest[r.value..] + b;
    }
  }

  lemma SkipBytesExtends(a: seq<byte>, b: seq<byte>, n: nat)
    ensures Extends(SkipBytes(a, n), SkipBytes(a + b, n), b)
  {
    if |a| >= n {
      assert (a + b)[n..] == a[n..] + b;
    }
  }

  lemma SkipFieldExtends(wireType: nat, a: seq<byte>, b: seq<byte>)
    ensures Extends(SkipField(wireType, a), SkipField(wireType, a + b), b)
  {
    hide ReadDelimited;
    if wireType == WT_VARINT {
      SpanExtends(a, b);
      var k := Span(a);
      if k < |a| {
        assert (a + b)[k + 1..] == a[k + 1..] + b;
      }
    } else if wireType == WT_STRING {
      ReadDelimitedExtends(a, b);
    } else {
      SkipBytesExtends(a, b, 8);
      SkipBytesExtends(a, b, 4);
    }
  }

  lemma ReadCharsExtends(f: Field, a: seq<byte>, b: seq<byte>)
    requires f.ltype.BYTES? || f.ltype.STRING? || f.ltype.FIXED_LENGTH_BYTES?
    ensures Extends(ReadChars(f, a), ReadChars(f, a + b), b)
  {
    hide ReadVarint32, Zeros;
    ReadVarint32Extends(a, b);
    var r := ReadVarint32(a);
    if r.Ok? && |r.rest| >= r.value {
      assert (r.rest + b)[..r.value] == r.rest[..r.value];
      assert (r.rest + b)[r.value..] == r.rest[r.value..] + b;
    }
  }

  lemma DecValueExtends(f: Field, prev: Value, a: seq<byte>, b: seq<byte>)
    requires WellFormedField(f) && ValidValue(f, prev)
    ensures Extends(DecValue(f, prev, a), DecValue(f, prev, a + b), b)
  {
    hide ReadNumber, ReadDelimited, ReadChars, DecMessage;
    if f.ltype.Packable() {
      ReadNumberExtends(f.ltype, f.dataSize, a, b);
    } else if f.ltype.SUBMESSAGE? {
      ReadDelimitedExtends(a, b);
    } else {
      ReadCharsExtends(f, a, b);
    }
  }

  lemma DecFieldExtends(f: Field, wireType: nat, c: Cell, a: seq<byte>, b: seq<byte>)
    requires WellFormedField(f) && ValidCell(f, c)
    ensures Extends(DecField(f, wireType, c, a), DecField(f, wireType, c, a + b), b)
  {
    hide DecValue, ReadDelimited, ReadPacked, WellFormedField, ValidValue;
    DefaultValueValid(f);
    ReadDelimitedExtends(a, b);
    DecValueExtends(f, DefaultValue(f), a, b);
    if c.Single? {
      DecValueExtends(f, c.value, a, b);
    } else if f.htype.ONEOF? {
      DecValueExtends(f, Selected(f, c), a, b);
    }
  }

  lemma DecRecordExtends(fields: seq<Field>, p: Progress, tag: Tag, a: seq<byte>, b: seq<byte>)
    requires WellFormed(fields) && ValidProgress(fields, p) && tag.Tag?
    ensures Extends(DecRecord(fields, p, tag, a), DecRecord(fields, p, tag, a + b), b)
  {
    hide DecField, SkipField, WellFormedField, ValidCell, Enter, ReadVarint32;
    match FindField(fields, tag.number)
    case None =>
      SkipFieldExtends(tag.wireType, a, b);
      ReadVarint32Extends(a, b);
    case Some(i) =>
      if Enter(fields, p, i).Some? {
        var q := Enter(fields, p, i).value;
        FieldFacts(fields, q.cells, i);
        DecFieldExtends(fields[i], tag.wireType, q.cells[Home(fields, i)], a, b);
      }
  }

  lemma DecStepExtends(fields: seq<Field>, p: Progress, a: seq<byte>, b: seq<byte>)
    requires WellFormed(fields) && ValidProgress(fields, p)
    ensures Extends(DecStep(fields, p, a), DecStep(fields, p, a + b), b)
  {
    hide ReadTag, DecRecord;
    ReadTagExtends(a, b);
    var r := ReadTag(a);
    if r.Ok? && r.value.Tag? {
      DecRecordExtends(fields, p, r.value, r.rest, b);
    }
  }

  // ----- concatenation -----

  /** The record loop on a + b: it goes on with b after the records of a, unless a zero tag or an error
    * has ended it. This is for every input; only a truncated a is not covered, since b may complete it. */
  lemma {:induction false} LoopOnConcatenation(fields: seq<Field>, p: Progress, a: seq<byte>, b: seq<byte>)
    requires WellFormed(fields) && ValidProgress(fields, p) && !p.stopped
    ensures match DecRecords(fields, p, a)
            case Ok(q, rest) =>
              DecRecords(fields, p, a + b) == if q.stopped then Ok(q, rest + b) else DecRecords(fields, q, b)
            case Malformed => DecRecords(fields, p, a + b).Malformed?
            case Truncated => true
    decreases |a|
  {
    hide DecStep, WellFormed, Valid;
    if a == [] {
      assert a + b == b;
    } else {
      DecStepExtends(fields, p, a, b);
      match DecStep(fields, p, a)
      case Ok(q, rest) => if !q.stopped { LoopOnConcatenation(fields, q, rest, b); }
      case _ =>
    }
  }

  /** No field of the message itself is required or of fixed count. Fields of submessages may be. */
  ghost predicate Plain(fields: seq<Field>) {
    forall i | 0 <= i < |fields| :: !fields[i].htype.REQUIRED? && !fields[i].FixedCount()
  }

  /** Without such fields the loop carries nothing but the struct. */
  lemma {:induction false} PlainProgress(fields: seq<Field>, p: Progress, a: seq<byte>)
    requires WellFormed(fields) && ValidProgress(fields, p) && Plain(fields)
    ensures var r := DecRecords(fields, p, a);
            r.Ok? ==> r.value.seen == p.seen && r.value.current == p.current
    decreases |a|
  {
    hide DecStep, WellFormed, Valid;
    if a != [] && !p.stopped {
      PlainStep(fields, p, a);
      match DecStep(fields, p, a)
      case Ok(q, rest) => PlainProgress(fields, q, rest);
      case _ =>
    }
  }

  lemma PlainStep(fields: seq<Field>, p: Progress, a: seq<byte>)
    requires WellFormed(fields) && ValidProgress(fields, p) && Plain(fields)
    ensures var r := DecStep(fields, p, a);
            r.Ok? ==> r.value.seen == p.seen && r.value.current == p.current
  {
    hide ReadTag, SkipField, DecField, WellFormedField, ValidCell;
  }

  /** Decoding is a homomorphism: for a sequence a of complete records, decoding a + b is decoding a and
    * then b into the result, with the same success. An error in a is an error of a + b. */
  lemma MergeHomomorphism(fields: seq<Field>, c: seq<Cell>, a: seq<byte>, b: seq<byte>)
    requires WellFormed(fields) && Valid(fields, c) && Plain(fields)
    ensures match DecRecords(fields, Start(c), a)
            case Ok(q, _) =>
              && DecMessage(fields, c, a) == Some(q.cells)
              && (!q.stopped ==> DecMessage(fields, c, a + b) == DecMessage(fields, q.cells, b))
              && (q.stopped ==> DecMessage(fields, c, a + b) == Some(q.cells))
            case Malformed => DecMessage(fields, c, a).None? && DecMessage(fields, c, a + b).None?
            case Truncated => DecMessage(fields, c, a).None?
  {
    hide DecRecords, WellFormed, Valid;
    LoopOnConcatenation(fields, Start(c), a, b);
    PlainProgress(fields, Start(c), a);
    match DecRecords(fields, Start(c), a)
    case Ok(q, _) =>
      assert q.stopped || q == Start(q.cells);
    case _ =>
  }

  /** Concatenated encodings decode to the merge of the structs. */
  lemma ConcatenationMerges(fields: seq<Field>, c: seq<Cell>, m: seq<Cell>, n: seq<Cell>)
    requires WellFormed(fields) && Valid(fields, c) && Plain(fields)
    requires Valid(fields, m) && Encodable(fields, m) && |EncMessage(fields, m)| < TWO_63
    requires Valid(fields, n) && Encodable(fields, n) && |EncMessage(fields, n)| < TWO_63
    ensures |m| == |n| == |fields|
    ensures DecMessage(fields, c, EncMessage(fields, m) + EncMessage(fields, n))
         == match When(Short(fields, m, 0), MergeFrom(fields, c, m, 0))
            case Some(d) => When(Short(fields, n, 0), MergeFrom(fields, d, n, 0))
            case None => None
  {
    hide DecRecords, DecMessage, EncFrom, Encodable, WellFormed, Valid, Short;
    assert |c| == |m| == |n| == |fields| by { FieldCount(fields, c); FieldCount(fields, m); FieldCount(fields, n); }
    DecMergesFrom(fields, Start(c), m, 0);
    MergeHomomorphism(fields, c, EncMessage(fields, m), EncMessage(fields, n));
    match When(Short(fields, m, 0), MergeFrom(fields, c, m, 0))
    case Some(d) => DecMergesMessage(fields, d, n);
    case None =>
  }

  // ----- unknown fields -----

  /** u is one whole record of a field that is not in the schema. */
  predicate UnknownRecord(fields: seq<Field>, u: seq<byte>) {
    match ReadTag(u)
    case Ok(Tag(number, wireType), payload) =>
      FindField(fields, number).None? && (fields != [] || number != 0) && SkipField(wireType, payload) == Ok((), [])
    case _ => false
  }

  lemma UnknownRecordSkipped(fields: seq<Field>, p: Progress, u: seq<byte>, b: seq<byte>)
    requires WellFormed(fields) && ValidProgress(fields, p) && !p.stopped && UnknownRecord(fields, u)
    ensures DecRecords(fields, p, u + b) == DecRecords(fields, p, b)
  {
    hide ReadTag, SkipField, WellFormed, Valid;
    DecStepExtends(fields, p, u, b);
    assert DecStep(fields, p, u) == Ok(p, []);
    assert [] + b == b;
  }

  /** Unknown fields are transparent: one may be inserted anywhere between records. */
  lemma UnknownFieldsTransparent(fields: seq<Field>, c: seq<Cell>, a: seq<byte>, u: seq<byte>, b: seq<byte>)
    requires WellFormed(fields) && Valid(fields, c) && UnknownRecord(fields, u)
    requires !DecRecords(fields, Start(c), a).Truncated?
    ensures DecMessage(fields, c, a + u + b) == DecMessage(fields, c, a + b)
  {
    hide DecRecords, WellFormed, Valid, UnknownRecord;
    LoopOnConcatenation(fields, Start(c), a, u + b);
    LoopOnConcatenation(fields, Start(c), a, b);
    assert a + u + b == a + (u + b);
    match DecRecords(fields, Start(c), a)
    case Ok(q, _) => if !q.stopped { UnknownRecordSkipped(fields, q, u, b); }
    case _ =>
  }

  // ----- skipping what the encoder writes -----

  lemma SkipsNumber(ltype: LType, n: int, rest: seq<byte>)
    requires ltype.Packable()
    ensures SkipField(WireType(ltype), EncNumber(ltype, n) + rest) == Ok((), rest)
  {
    hide EncVarint, LittleEndian, ZigZag;
    var e := EncNumber(ltype, n);
    assert (e + rest)[|e|..] == rest;
    if WireType(ltype) == WT_VARINT {
      var u := if ltype.BOOL? then (if n != 0 then 1 else 0) else if ltype.SVARINT? then ZigZag(n) else n % TWO_64;
      EncVarintShape(u, rest);
    }
  }

  /** Whatever value the encoder writes, a reader that does not know the field skips exactly it. */
  lemma SkipsValue(f: Field, v: Value, rest: seq<byte>)
    requires WellFormedField(f) && ValidValue(f, v) && EncodableValue(f, v) && ShortValue(f, v)
    ensures SkipField(WireType(f.ltype), EncValue(f, v) + rest) == Ok((), rest)
  {
    hide SkipField, WellFormed, EncNumber, EncDelimited, EncFrom, CString;
    match v
    case Number(n) => SkipsNumber(f.ltype, n, rest);
    case Chars(bs) => SkipsDelimited(if f.ltype.STRING? then CString(bs, f.dataSize) else bs, rest);
    case Message(cells) => SkipsDelimited(EncMessage(f.ptr.fields, cells), rest);
  }

  lemma SkipsDelimited(body: seq<byte>, rest: seq<byte>)
    requires |body| < TWO_32
    ensures SkipField(WT_STRING, EncDelimited(body) + rest) == Ok((), rest)
  {
    hide ReadDelimited, EncDelimited;
    ReadDelimitedInverts(body, rest);
  }

  /** The loop of a decoder whose schema does not have the tag, on one written record. */
  lemma SkipsRecord(other: seq<Field>, p: Progress, wireType: nat, tag: nat, payload: seq<byte>, rest: seq<byte>)
    requires WellFormed(other) && ValidProgress(other, p) && !p.stopped
    requires wireType < 8 && 1 <= tag < 0x2000_0000 && FindField(other, tag).None?
    requires SkipField(wireType, payload + rest) == Ok((), rest)
    ensures DecRecords(other, p, EncTag(wireType, tag) + payload + rest) == DecRecords(other, p, rest)
  {
    hide EncTag, ReadTag, SkipField, WellFormed, Valid;
    ReadTagInverts(wireType, tag, payload + rest);
    assert EncTag(wireType, tag) + payload + rest == EncTag(wireType, tag) + (payload + rest);
    assert DecStep(other, p, EncTag(wireType, tag) + payload + rest) == Ok(p, rest);
  }

  lemma {:induction false} SkipsItems(other: seq<Field>, p: Progress, f: Field, items: seq<Value>, rest: seq<byte>)
    requires WellFormed(other) && ValidProgress(other, p) && !p.stopped
    requires WellFormedField(f) && FindField(other, f.tag).None?
    requires forall k | 0 <= k < |items| :: ValidValue(f, items[k]) && EncodableValue(f, items[k])
    requires ShortItems(f, items)
    ensures DecRecords(other, p, EncRecords(f, items) + rest) == DecRecords(other, p, rest)
    decreases items
  {
    hide DecRecords, EncTag, EncValue, SkipField, WellFormed, Valid, ValidValue, EncodableValue;
    if items == [] {
      assert EncRecords(f, items) + rest == rest;
    } else {
      var more := EncRecords(f, items[1..]) + rest;
      SkipsValue(f, items[0], more);
      SkipsRecord(other, p, WireType(f.ltype), f.tag, EncValue(f, items[0]), more);
      SkipsItems(other, p, f, items[1..], rest);
      assert EncRecords(f, items) + rest == EncTag(WireType(f.ltype), f.tag) + EncValue(f, items[0]) + more;
    }
  }

  lemma SkipsField(other: seq<Field>, p: Progress, f: Field, m: Cell, rest: seq<byte>)
    requires WellFormed(other) && ValidProgress(other, p) && !p.stopped
    requires WellFormedField(f) && FindField(other, f.tag).None?
    requires ValidCell(f, m) && EncodableCell(f, m) && ShortCell(f, m)
    ensures DecRecords(other, p, EncField(f, m) + rest) == DecRecords(other, p, rest)
  {
    hide DecRecords, EncTag, EncValue, SkipField, WellFormed, Valid, ValidValue, EncodableValue, EncDelimited,
      EncPacked, EncRecords;
    if !Written(f, m) {
      assert EncField(f, m) + rest == rest;
    } else if !m.Many? {
      SkipsValue(f, m.value, rest);
      SkipsRecord(other, p, WireType(f.ltype), f.tag, EncValue(f, m.value), rest);
    } else if f.ltype.Packable() {
      SkipsDelimited(EncPacked(f, m.items), rest);
      SkipsRecord(other, p, WT_STRING, f.tag, EncDelimited(EncPacked(f, m.items)), rest);
    } else {
      SkipsItems(other, p, f, m.items, rest);
    }
  }

  lemma {:induction false} SkipsFrom(other: seq<Field>, p: Progress, fields: seq<Field>, m: seq<Cell>, i: nat)
    requires WellFormed(other) && ValidProgress(other, p) && !p.stopped && WellFormed(fields) && i <= |fields|
    requires forall j | 0 <= j < |fields| :: FindField(other, fields[j].tag).None?
    requires Valid(fields, m) && Encodable(fields, m) && Short(fields, m, i)
    ensures DecRecords(other, p, EncFrom(fields, m, i)) == Ok(p, [])
    decreases |fields| - i
  {
    hide DecRecords, EncField, FindField, ValidCell, WellFormedField, EncodableCell;
    if i == |fields| {
      NoMoreFields(other, p);
    } else {
      FieldFacts(fields, m, i);
      assert EncodableCell(fields[i], m[Home(fields, i)]);
      SkipsField(other, p, fields[i], m[Home(fields, i)], EncFrom(fields, m, i + 1));
      SkipsFrom(other, p, fields, m, i + 1);
    }
  }

  /** A decoder that knows none of the fields of an encoded message leaves its struct as it is. */
  lemma ForeignMessageSkipped(other: seq<Field>, c: seq<Cell>, fields: seq<Field>, m: seq<Cell>)
    requires WellFormed(other) && Valid(other, c) && Plain(other) && WellFormed(fields)
    requires forall j | 0 <= j < |fields| :: FindField(other, fields[j].tag).None?
    requires Valid(fields, m) && Encodable(fields, m) && |m| == |fields| && Short(fields, m, 0)
    ensures DecMessage(other, c, EncMessage(fields, m)) == Some(c)
  {
    SkipsFrom(other, Start(c), fields, m, 0);
  }

  // ----- the order of records -----

  /** A whole record, or one that is in error, at this point of the input. */
  ghost predicate Complete(fields: seq<Field>, p: Progress, r: seq<byte>)
    requires WellFormed(fields) && ValidProgress(fields, p)
  {
    var s := DecStep(fields, p, r);
    s.Malformed? || (s.Ok? && s.rest == [] && !s.value.stopped)
  }

  /** The cell that a record is decoded into, if its field is known. */
  function Target(fields: seq<Field>, r: seq<byte>): Option<nat> {
    match ReadTag(r)
    case Ok(Tag(number, _), _) => (
      match FindField(fields, number)
      case Some(i) => Some(Home(fields, i))
      case None => None)
    case _ => None
  }

  /** Same result, or both in error. */
  predicate SameOutcome(r: Outcome<Progress>, s: Outcome<Progress>) {
    r == s || (!r.Ok? && !s.Ok?)
  }

  /** What a record does to the state: it sets one cell and may note a required field. */
  datatype Effect = Effect(cell: Option<(nat, Cell)>, required: set<nat>)

  function Apply(p: Progress, e: Effect): Progress {
    var cells :=
      match e.cell
      case Some((h, c)) => if h < |p.cells| then p.cells[h := c] else p.cells
      case None => p.cells;
    p.(seen := p.seen + e.required, cells := cells)
  }

  ghost predicate NoFixed(fields: seq<Field>) {
    forall i | 0 <= i < |fields| :: !fields[i].FixedCount()
  }

  /** The effect that decoding a cell of field i has. */
  function FieldEffect(fields: seq<Field>, i: nat, c: Cell): Effect
    requires i < |fields|
  {
    Effect(Some((Home(fields, i), c)), if fields[i].htype.REQUIRED? then {i} else {})
  }

  lemma StepOnField(fields: seq<Field>, p: Progress, r: seq<byte>, i: nat)
    requires WellFormed(fields) && NoFixed(fields) && ValidProgress(fields, p)
    requires ReadTag(r).Ok? && ReadTag(r).value.Tag? && FindField(fields, ReadTag(r).value.number) == Some(i)
    ensures WellFormedField(fields[i]) && ValidCell(fields[i], p.cells[Home(fields, i)])
    ensures var d := DecField(fields[i], ReadTag(r).value.wireType, p.cells[Home(fields, i)], ReadTag(r).rest);
            && (d.Ok? ==> DecStep(fields, p, r) == Ok(Apply(p, FieldEffect(fields, i, d.value)), d.rest))
            && (d.Malformed? ==> DecStep(fields, p, r).Malformed?)
            && (d.Truncated? ==> DecStep(fields, p, r).Truncated?)
  {
    hide ReadTag, SkipField, DecField, WellFormed, WellFormedField, Valid, ValidCell, ReadVarint32, Home, FindField,
      Enter;
    FieldFacts(fields, p.cells, i);
    EnterPlain(fields, p, i);
    assert p.seen + {} == p.seen;
  }

  /** The effect of a record depends on its own cell only. */
  lemma StepIsLocal(fields: seq<Field>, p: Progress, q: Progress, r: seq<byte>) returns (e: Effect)
    requires WellFormed(fields) && NoFixed(fields) && ValidProgress(fields, p) && ValidProgress(fields, q)
    requires !p.stopped && !q.stopped && Complete(fields, p, r)
    requires Target(fields, r).Some? ==>
              && Target(fields, r).value < |fields|
              && q.cells[Target(fields, r).value] == p.cells[Target(fields, r).value]
    ensures DecStep(fields, p, r).Malformed? ==> DecStep(fields, q, r).Malformed?
    ensures DecStep(fields, p, r).Ok? ==>
              && (e.cell.Some? ==> Target(fields, r) == Some(e.cell.value.0))
              && DecStep(fields, p, r) == Ok(Apply(p, e), []) && DecStep(fields, q, r) == Ok(Apply(q, e), [])
  {
    hide ReadTag, SkipField, DecField, WellFormedField, ValidCell, ReadVarint32, Home, Enter;
    e := Effect(None, {});
    assert p.seen + {} == p.seen && q.seen + {} == q.seen;
    if Target(fields, r).Some? {
      var tag, payload := ReadTag(r).value, ReadTag(r).rest;
      var i := FindField(fields, tag.number).value;
      hide WellFormed, Valid, DecStep, NoFixed;
      StepOnField(fields, p, r, i);
      StepOnField(fields, q, r, i);
      var d := DecField(fields[i], tag.wireType, p.cells[Home(fields, i)], payload);
      if d.Ok? {
        e := FieldEffect(fields, i, d.value);
      }
    } else if ReadTag(r).Ok? && ReadTag(r).value.Tag? {
      var tag, payload := ReadTag(r).value, ReadTag(r).rest;
      assert DecRecord(fields, p, tag, payload).Malformed? == DecRecord(fields, q, tag, payload).Malformed?;
    }
  }

  /** The loop on one complete record and what follows it. */
  lemma LoopOnRecord(fields: seq<Field>, p: Progress, r: seq<byte>, b: seq<byte>)
    requires WellFormed(fields) && ValidProgress(fields, p) && !p.stopped && Complete(fields, p, r)
    ensures match DecStep(fields, p, r)
            case Ok(q, _) => DecRecords(fields, p, r + b) == DecRecords(fields, q, b)
            case _ => DecRecords(fields, p, r + b).Malformed?
  {
    hide DecStep, WellFormed, Valid;
    DecStepExtends(fields, p, r, b);
    assert [] + b == b;
    assert r != [] by { EmptyIsTruncated(fields, p); }
  }

  lemma EmptyIsTruncated(fields: seq<Field>, p: Progress)
    requires WellFormed(fields) && ValidProgress(fields, p)
    ensures DecStep(fields, p, []).Truncated?
  {
  }

  lemma EffectsCommute(p: Progress, d: Effect, e: Effect)
    requires d.cell.Some? && e.cell.Some? ==> d.cell.value.0 != e.cell.value.0
    ensures Apply(Apply(p, d), e) == Apply(Apply(p, e), d)
  {
    assert p.seen + d.required + e.required == p.seen + e.required + d.required;
    if d.cell.Some? && e.cell.Some? {
      var (h, c) := d.cell.value;
      var (k, w) := e.cell.value;
      if h < |p.cells| && k < |p.cells| {
        assert p.cells[h := c][k := w] == p.cells[k := w][h := c];
      }
    }
  }

  /** Two adjacent records of fields that do not share storage can be swapped: the decoded struct and
    * the success are the same. */
  lemma RecordsCommute(fields: seq<Field>, p: Progress, r: seq<byte>, s: seq<byte>, b: seq<byte>)
    requires WellFormed(fields) && NoFixed(fields) && ValidProgress(fields, p) && !p.stopped
    requires Complete(fields, p, r) && Complete(fields, p, s)
    requires Target(fields, r).None? || Target(fields, r) != Target(fields, s)
    ensures SameOutcome(DecRecords(fields, p, r + (s + b)), DecRecords(fields, p, s + (r + b)))
  {
    hide DecRecords, DecStep, WellFormed, Valid, Target, Apply;
    TargetInRange(fields, r);
    TargetInRange(fields, s);
    LoopOnRecord(fields, p, r, s + b);
    LoopOnRecord(fields, p, s, r + b);
    var x, y := DecStep(fields, p, r), DecStep(fields, p, s);
    if x.Ok? {
      AfterOther(fields, p, r, s, b);
    }
    if y.Ok? {
      AfterOther(fields, p, s, r, b);
    }
    if x.Ok? && y.Ok? {
      var d := StepIsLocal(fields, p, y.value, r);
      var e := StepIsLocal(fields, p, x.value, s);
      EffectsCommute(p, d, e);
    }
  }

  lemma TargetInRange(fields: seq<Field>, r: seq<byte>)
    ensures Target(fields, r).Some? ==> Target(fields, r).value < |fields|
  {
    hide ReadTag;
  }

  /** After a record r, another record s with a different target does what it would have done before. */
  lemma AfterOther(fields: seq<Field>, p: Progress, r: seq<byte>, s: seq<byte>, b: seq<byte>)
    requires WellFormed(fields) && NoFixed(fields) && ValidProgress(fields, p) && !p.stopped
    requires Complete(fields, p, r) && Complete(fields, p, s) && DecStep(fields, p, r).Ok?
    requires Target(fields, r).None? || Target(fields, r) != Target(fields, s)
    ensures var q := DecStep(fields, p, r).value;
      && |q.cells| == |p.cells|
      && (Target(fields, s).Some? ==>
            Target(fields, s).value < |fields| && q.cells[Target(fields, s).value] == p.cells[Target(fields, s).value])
      && match DecStep(fields, q, s)
         case Ok(t, rest) =>
           rest == [] && DecStep(fields, p, s).Ok? && DecRecords(fields, q, s + b) == DecRecords(fields, t, b)
         case _ => DecStep(fields, p, s).Malformed? && DecRecords(fields, q, s + b).Malformed?
  {
    hide DecRecords, DecStep, WellFormed, Valid, Target;
    var q := DecStep(fields, p, r).value;
    assert |p.cells| == |fields| by { FieldCount(fields, p.cells); }
    TargetInRange(fields, r);
    TargetInRange(fields, s);
    var d := StepIsLocal(fields, p, p, r);
    var e := StepIsLocal(fields, p, q, s);
    LoopOnRecord(fields, q, s, b);
  }

  /** The same for a whole message: swapping two adjacent complete records changes nothing. */
  lemma SwapInMessage(fields: seq<Field>, c: seq<Cell>, a: seq<byte>, r: seq<byte>, s: seq<byte>, b: seq<byte>)
    requires WellFormed(fields) && NoFixed(fields) && Valid(fields, c)
    requires match DecRecords(fields, Start(c), a)
             case Ok(p, _) => !p.stopped ==> Complete(fields, p, r) && Complete(fields, p, s)
             case Malformed => true
             case Truncated => false
    requires Target(fields, r).None? || Target(fields, r) != Target(fields, s)
    ensures DecMessage(fields, c, a + (r + (s + b))) == DecMessage(fields, c, a + (s + (r + b)))
  {
    hide DecRecords, DecStep, WellFormed, Valid, Target, Complete;
    LoopOnConcatenation(fields, Start(c), a, r + (s + b));
    LoopOnConcatenation(fields, Start(c), a, s + (r + b));
    match DecRecords(fields, Start(c), a)
    case Ok(p, _) => if !p.stopped { RecordsCommute(fields, p, r, s, b); }
    case _ =>
  }

  // ----- whole records, by their bytes -----

  /** One record with the wire type of its field, or of a packed block, as can be told from the bytes and
    * the descriptors. */
  predicate WholeRecord(fields: seq<Field>, r: seq<byte>) {
    match ReadTag(r)
    case Ok(Tag(number, wireType), payload) =>
      && SkipField(wireType, payload) == Ok((), [])
      && (number != 0 || fields != [])
      && (match FindField(fields, number)
          case None => true
          case Some(i) =>
            var f := fields[i];
            wireType == WireType(f.ltype) || (f.htype.REPEATED? && f.ltype.Packable() && wireType == WT_STRING))
    case _ => false
  }

  /** A reader that was given one whole item: it takes all of it, or finds it in error. */
  predicate Whole<T>(r: Outcome<T>) {
    r.Malformed? || (r.Ok? && r.rest == [])
  }

  lemma {:induction false} WholeTail(a: seq<byte>, result: uint32, bitpos: byte)
    requires a != [] && Span(a) == |a| - 1
    ensures Whole(Varint32Tail(a, result, bitpos))
    decreases |a|
  {
    hide OrShifted32;
    if a[0] >= 0x80 && !(bitpos >= 32 && a[0] % 0x80 != 0 && (result < 0x8000_0000 || a[0] != SignExtension(bitpos))) {
      var result' := if bitpos >= 32 then result else OrShifted32(result, a[0] % 0x80, bitpos);
      WholeTail(a[1..], result', (bitpos + 7) % 256);
    }
  }

  lemma WholeNumber(ltype: LType, size: nat, a: seq<byte>)
    requires ltype.Packable() && SkipField(WireType(ltype), a) == Ok((), [])
    ensures Whole(ReadNumber(ltype, size, a))
  {
    if WireType(ltype) == WT_VARINT {
      assert a != [] && Span(a) == |a| - 1;
      if a[0] >= 0x80 {
        WholeTail(a[1..], a[0] % 0x80, 7);
      }
    }
    hide Varint32Tail, SignedValue, CastSigned, CastUnsigned, UnZigZag, FromLittleEndian;
  }

  lemma WholeValue(f: Field, prev: Value, a: seq<byte>)
    requires WellFormedField(f) && ValidValue(f, prev) && SkipField(WireType(f.ltype), a) == Ok((), [])
    ensures Whole(DecValue(f, prev, a))
  {
    if f.ltype.Packable() {
      WholeNumber(f.ltype, f.dataSize, a);
      hide ReadNumber, SkipField;
    } else {
      assert ReadDelimited(a).Ok? && ReadDelimited(a).rest == [];
      hide ReadVarint32, ReadNumber, DecMessage, WellFormedField;
    }
  }

  lemma WholeField(f: Field, wireType: nat, c: Cell, a: seq<byte>)
    requires WellFormedField(f) && ValidCell(f, c) && SkipField(wireType, a) == Ok((), [])
    requires wireType == WireType(f.ltype) || (f.htype.REPEATED? && f.ltype.Packable() && wireType == WT_STRING)
    ensures Whole(DecField(f, wireType, c, a))
  {
    DefaultValueValid(f);
    if f.htype.REPEATED? && f.ltype.Packable() && wireType == WT_STRING {
      assert ReadDelimited(a).Ok? && ReadDelimited(a).rest == [];
      hide ReadDelimited, ReadPacked;
    } else {
      var prev :=
        if f.htype.REPEATED? then DefaultValue(f) else if f.htype.ONEOF? then Selected(f, c) else c.value;
      WholeValue(f, prev, a);
      hide DecValue, SkipField, ReadDelimited, ReadPacked;
    }
  }

  /** A whole record is complete wherever it comes in a message. */
  lemma WholeIsComplete(fields: seq<Field>, p: Progress, r: seq<byte>)
    requires WellFormed(fields) && ValidProgress(fields, p) && !p.stopped && WholeRecord(fields, r)
    ensures Complete(fields, p, r)
  {
    var number, wireType, payload := ReadTag(r).value.number, ReadTag(r).value.wireType, ReadTag(r).rest;
    hide ReadTag, SkipField, DecField, WellFormedField, ValidCell, Home;
    var tag := Tag.Tag(number, wireType);
    assert ReadTag(r) == Ok(tag, payload) && DecStep(fields, p, r) == DecRecord(fields, p, tag, payload);
    match FindField(fields, number)
    case None =>
      assert DecRecord(fields, p, tag, payload) == Ok(p, []);
    case Some(i) =>
      if Enter(fields, p, i).Some? {
        var q := Enter(fields, p, i).value;
        FieldFacts(fields, q.cells, i);
        WholeField(fields[i], wireType, q.cells[Home(fields, i)], payload);
        assert !q.stopped;
        hide WellFormed, Valid, Enter;
      }
  }

  /** What the encoder writes is whole: a record for one value, and a packed block. */
  lemma WrittenIsWhole(fields: seq<Field>, i: nat, v: Value)
    requires WellFormed(fields) && i < |fields|
    requires ValidValue(fields[i], v) && EncodableValue(fields[i], v) && ShortValue(fields[i], v)
    ensures WholeRecord(fields, EncTag(WireType(fields[i].ltype), fields[i].tag) + EncValue(fields[i], v))
  {
    var f := fields[i];
    assert WellFormedField(f);
    FindUnique(fields, i);
    ReadTagInverts(WireType(f.ltype), f.tag, EncValue(f, v));
    SkipsValue(f, v, []);
    assert EncValue(f, v) + [] == EncValue(f, v);
    hide EncTag, EncValue, ReadTag, SkipField, WellFormed, WellFormedField, FindField;
  }

  lemma BlockIsWhole(fields: seq<Field>, i: nat, items: seq<Value>)
    requires WellFormed(fields) && i < |fields| && fields[i].htype.REPEATED? && fields[i].ltype.Packable()
    requires |EncPacked(fields[i], items)| < TWO_32
    ensures WholeRecord(fields, EncTag(WT_STRING, fields[i].tag) + EncDelimited(EncPacked(fields[i], items)))
  {
    var f, body := fields[i], EncPacked(fields[i], items);
    assert WellFormedField(f);
    FindUnique(fields, i);
    ReadTagInverts(WT_STRING, f.tag, EncDelimited(body));
    SkipsDelimited(body, []);
    assert EncDelimited(body) + [] == EncDelimited(body);
    hide EncTag, EncDelimited, ReadTag, SkipField, WellFormed, WellFormedField, FindField;
  }

  function Joined(rs: seq<seq<byte>>): seq<byte> {
    if rs == [] then [] else rs[0] + Joined(rs[1..])
  }

  lemma {:induction false} WholeRecordsEnd(fields: seq<Field>, p: Progress, rs: seq<seq<byte>>)
    requires WellFormed(fields) && ValidProgress(fields, p) && !p.stopped
    requires forall k | 0 <= k < |rs| :: WholeRecord(fields, rs[k])
    ensures !DecRecords(fields, p, Joined(rs)).Truncated?
    ensures DecRecords(fields, p, Joined(rs)).Ok? ==> !DecRecords(fields, p, Joined(rs)).value.stopped
    decreases |rs|
  {
    hide WholeRecord, DecStep, WellFormed, Valid;
    if rs != [] {
      WholeIsComplete(fields, p, rs[0]);
      LoopOnRecord(fields, p, rs[0], Joined(rs[1..]));
      hide DecRecords;
      if DecStep(fields, p, rs[0]).Ok? {
        WholeRecordsEnd(fields, DecStep(fields, p, rs[0]).value, rs[1..]);
      }
    }
  }

  /** After any whole records, two adjacent whole records of fields that do not share storage can be
    * swapped, whatever follows them. */
  lemma SwapWholeRecords(fields: seq<Field>, c: seq<Cell>, before: seq<seq<byte>>,
                         r: seq<byte>, s: seq<byte>, b: seq<byte>)
    requires WellFormed(fields) && NoFixed(fields) && Valid(fields, c)
    requires forall k | 0 <= k < |before| :: WholeRecord(fields, before[k])
    requires WholeRecord(fields, r) && WholeRecord(fields, s)
    requires Target(fields, r).None? || Target(fields, r) != Target(fields, s)
    ensures DecMessage(fields, c, Joined(before) + (r + (s + b)))
         == DecMessage(fields, c, Joined(before) + (s + (r + b)))
  {
    hide DecRecords, DecStep, WellFormed, Valid, Target, Complete, WholeRecord, NoFixed;
    WholeRecordsEnd(fields, Start(c), before);
    var a := DecRecords(fields, Start(c), Joined(before));
    if a.Ok? {
      WholeIsComplete(fields, a.value, r);
      WholeIsComplete(fields, a.value, s);
    }
    SwapInMessage(fields, c, Joined(before), r, s, b);
  }

  // ----- packed and unpacked elements -----

  /** How a sender may send elements of a packable array: a packed block, or a record of its own. */
  datatype Chunk = Block(items: seq<Value>) | Lone(item: Value)

  function EncChunk(f: Field, k: Chunk): seq<byte> {
    match k
    case Block(items) => EncTag(WT_STRING, f.tag) + EncDelimited(EncPacked(f, items))
    case Lone(item) => EncTag(WireType(f.ltype), f.tag) + EncValue(f, item)
  }

  function EncChunks(f: Field, ks: seq<Chunk>): seq<byte> {
    if ks == [] then [] else EncChunk(f, ks[0]) + EncChunks(f, ks[1..])
  }

  function Elements(k: Chunk): seq<Value> {
    match k
    case Block(items) => items
    case Lone(item) => [item]
  }

  function AllElements(ks: seq<Chunk>): seq<Value> {
    if ks == [] then [] else Elements(ks[0]) + AllElements(ks[1..])
  }

  ghost predicate ValidChunk(f: Field, k: Chunk) {
    && (forall j | 0 <= j < |Elements(k)| :: ValidValue(f, Elements(k)[j]))
    && |EncPacked(f, Elements(k))| < TWO_32
  }

  /** One chunk appends its elements, or fails if there is no room for all of them. */
  lemma ChunkAppends(fields: seq<Field>, p: Progress, i: nat, k: Chunk, rest: seq<byte>)
    requires WellFormed(fields) && ValidProgress(fields, p) && !p.stopped && i < |fields|
    requires fields[i].htype.REPEATED? && fields[i].ltype.Packable() && !fields[i].FixedCount()
    requires ValidChunk(fields[i], k)
    ensures p.cells[Home(fields, i)].Many?
    ensures if |p.cells[Home(fields, i)].items| + |Elements(k)| <= fields[i].arraySize then
              && ValidProgress(fields, Appended(fields, p, i, Elements(k)))
              && DecRecords(fields, p, EncChunk(fields[i], k) + rest)
                    == DecRecords(fields, Appended(fields, p, i, Elements(k)), rest)
            else DecRecords(fields, p, EncChunk(fields[i], k) + rest).Malformed?
  {
    hide WellFormed, Valid, EncTag, DecRecords, Enter, Home, EncPacked, EncDelimited, ReadDelimited, ReadPacked,
      ReadNumber, EncNumber, ValidNumber;
    var f, h := fields[i], Home(fields, i);
    FieldFacts(fields, p.cells, i);
    EnterPlain(fields, p, i);
    match k
    case Block(items) =>
      var body := EncPacked(f, items);
      assert EncChunk(f, k) + rest == EncTag(WT_STRING, f.tag) + (EncDelimited(body) + rest);
      ReadDelimitedInverts(body, rest);
      ReadPackedInverts(f, p.cells[h].items, items);
      StepOfField(fields, p, i, WT_STRING, EncDelimited(body) + rest);
    case Lone(item) =>
      assert ValidValue(f, Elements(k)[0]);
      DefaultValueValid(f);
      var payload := EncNumber(f.ltype, item.n) + rest;
      NumberRoundTrip(f.ltype, f.dataSize, item.n, rest);
      assert DecValue(f, DefaultValue(f), payload) == Ok(item, rest);
      assert EncChunk(f, k) + rest == EncTag(WireType(f.ltype), f.tag) + payload;
      StepOfField(fields, p, i, WireType(f.ltype), payload);
  }

  /** Packed equals unpacked: any mixture of blocks and single records gives the same array and count,
    * and is rejected exactly when the old count and the new elements together exceed the array. */
  lemma {:induction false} PackedEqualsUnpacked(fields: seq<Field>, p: Progress, i: nat, ks: seq<Chunk>,
                                                rest: seq<byte>)
    requires WellFormed(fields) && ValidProgress(fields, p) && !p.stopped && i < |fields|
    requires fields[i].htype.REPEATED? && fields[i].ltype.Packable() && !fields[i].FixedCount()
    requires forall j | 0 <= j < |ks| :: ValidChunk(fields[i], ks[j])
    ensures p.cells[Home(fields, i)].Many?
    ensures if |p.cells[Home(fields, i)].items| + |AllElements(ks)| <= fields[i].arraySize then
              && ValidProgress(fields, Appended(fields, p, i, AllElements(ks)))
              && DecRecords(fields, p, EncChunks(fields[i], ks) + rest)
                 == DecRecords(fields, Appended(fields, p, i, AllElements(ks)), rest)
            else DecRecords(fields, p, EncChunks(fields[i], ks) + rest).Malformed?
    decreases |ks|
  {
    hide WellFormed, Valid, DecRecords, Home, EncChunk, WellFormedField, ValidChunk, Elements;
    var f, h := fields[i], Home(fields, i);
    FieldFacts(fields, p.cells, i);
    var c := p.cells[h];
    if ks == [] {
      assert EncChunks(f, ks) + rest == rest;
      assert c.items + [] == c.items && p.cells[h := c] == p.cells;
    } else {
      assert ValidChunk(f, ks[0]);
      var first, others := Elements(ks[0]), AllElements(ks[1..]);
      assert EncChunks(f, ks) + rest == EncChunk(f, ks[0]) + (EncChunks(f, ks[1..]) + rest);
      ChunkAppends(fields, p, i, ks[0], EncChunks(f, ks[1..]) + rest);
      if |c.items| + |first| <= f.arraySize {
        var q := Appended(fields, p, i, first);
        PackedEqualsUnpacked(fields, q, i, ks[1..], rest);
        assert c.items + first + others == c.items + (first + others);
        assert q.cells[h := Many(c.items + (first + others))] == p.cells[h := Many(c.items + (first + others))];
      }
    }
  }
}
