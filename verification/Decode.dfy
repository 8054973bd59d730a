/** What pb_decode makes of a byte string, as a function of the bytes and of the struct decoded into. */
module Decode {
  import opened Varints
  import opened Schema
  import opened Scalars
  import opened Encode
  import opened Options

  // ----- pieces of a record -----

  datatype Tag = End | Tag(number: nat, wireType: nat)

  /** pb_decode_tag: a zero byte where a tag should be ends the message. */
  function ReadTag(input: seq<byte>): (r: Outcome<Tag>)
    ensures r.Ok? ==> |r.rest| < |input|
  {
    match ReadVarint32(input)
    case Ok(v, rest) => Ok(if v == 0 then End else Tag(v / 8, v % 8), rest)
    case Truncated => Truncated
    case Malformed => Malformed
  }

  /** The body that follows its length; pb_make_string_substream. */
  function ReadDelimited(input: seq<byte>): (r: Outcome<seq<byte>>)
    ensures r.Ok? ==> |r.value| + |r.rest| < |input|
  {
    match ReadVarint32(input)
    case Ok(size, rest) => if |rest| < size then Truncated else Ok(rest[..size], rest[size..])
    case Truncated => Truncated
    case Malformed => Malformed
  }

  function SkipBytes(input: seq<byte>, n: nat): (r: Outcome<()>)
    ensures r.Ok? ==> |r.rest| + n == |input|
  {
    if |input| < n then Truncated else Ok((), input[n..])
  }

  /** pb_skip_varint, which does not limit the length. */
  function SkipVarint(input: seq<byte>): (r: Outcome<()>)
    ensures r.Ok? ==> |r.rest| < |input|
  {
    var k := Span(input);
    if k == |input| then Truncated else Ok((), input[k + 1..])
  }

  function SkipDelimited(input: seq<byte>): (r: Outcome<()>)
    ensures r.Ok? ==> |r.rest| < |input|
  {
    match ReadDelimited(input)
    case Ok(_, rest) => Ok((), rest)
    case Truncated => Truncated
    case Malformed => Malformed
  }

  /** pb_skip_field */
  function SkipField(wireType: nat, input: seq<byte>): (r: Outcome<()>)
    ensures r.Ok? ==> |r.rest| < |input|
  {
    if wireType == WT_VARINT then SkipVarint(input)
    else if wireType == WT_64BIT then SkipBytes(input, 8)
    else if wireType == WT_STRING then SkipDelimited(input)
    else if wireType == WT_32BIT then SkipBytes(input, 4)
    else Malformed
  }

  /** pb_dec_bytes, pb_dec_string and pb_dec_fixed_length_bytes: the size is checked against the buffer
    * before anything is read into it. */
  function ReadChars(f: Field, input: seq<byte>): (r: Outcome<seq<byte>>)
    requires f.ltype.BYTES? || f.ltype.STRING? || f.ltype.FIXED_LENGTH_BYTES?
    ensures r.Ok? ==> |r.rest| < |input| && ValidValue(f, Chars(r.value))
  {
    match ReadVarint32(input)
    case Truncated => Truncated
    case Malformed => Malformed
    case Ok(size, rest) =>
      if f.ltype.FIXED_LENGTH_BYTES? && size == 0 then Ok(Zeros(f.dataSize), rest)
      else if f.ltype.FIXED_LENGTH_BYTES? && (size > PB_SIZE_MAX || size != f.dataSize) then Malformed
      else if f.ltype.BYTES? && (size > PB_SIZE_MAX || size + BYTES_OFFSET > f.dataSize) then Malformed
      else if f.ltype.STRING? && ((size + 1) % TWO_32 < size || (size + 1) % TWO_32 > f.dataSize) then Malformed
      else if |rest| < size then Truncated
      else Ok(rest[..size], rest[size..])
  }

  /** The elements of a packed block, appended as long as there is room; what does not fit is an error. */
  function ReadPacked(f: Field, items: seq<Value>, body: seq<byte>): (r: Option<seq<Value>>)
    requires f.ltype.Packable() && |items| <= f.arraySize
    requires forall k | 0 <= k < |items| :: ValidValue(f, items[k])
    ensures r.Some? ==> items <= r.value && |r.value| <= f.arraySize
    ensures r.Some? ==> forall k | 0 <= k < |r.value| :: ValidValue(f, r.value[k])
    decreases |body|
  {
    if body == [] then Some(items)
    else if |items| == f.arraySize then None
    else
      ReadNumberValid(f.ltype, f.dataSize, body);
      match ReadNumber(f.ltype, f.dataSize, body)
      case Ok(n, rest) => ReadPacked(f, items + [Number(n)], rest)
      case Truncated => None
      case Malformed => None
  }

  // ----- fields -----

  /** The entries of PB_DECODERS. Only a submessage depends on the old contents. */
  function DecValue(f: Field, prev: Value, input: seq<byte>): (r: Outcome<Value>)
    requires WellFormedField(f) && ValidValue(f, prev)
    ensures r.Ok? ==> |r.rest| < |input| && ValidValue(f, r.value)
    decreases |input|, 0
  {
    if f.ltype.Packable() then
      ReadNumberValid(f.ltype, f.dataSize, input);
      match ReadNumber(f.ltype, f.dataSize, input)
      case Ok(n, rest) => Ok(Number(n), rest)
      case Truncated => Truncated
      case Malformed => Malformed
    else if f.ltype.SUBMESSAGE? then
      match ReadDelimited(input)
      case Truncated => Truncated
      case Malformed => Malformed
      case Ok(body, rest) =>
        match DecMessage(f.ptr.fields, prev.cells, body)
        case Some(cells) => Ok(Message(cells), rest)
        case None => Malformed
    else
      match ReadChars(f, input)
      case Ok(bs, rest) => Ok(Chars(bs), rest)
      case Truncated => Truncated
      case Malformed => Malformed
  }

  /** decode_static_field */
  function DecField(f: Field, wireType: nat, c: Cell, input: seq<byte>): (r: Outcome<Cell>)
    requires WellFormedField(f) && ValidCell(f, c)
    ensures r.Ok? ==> |r.rest| < |input| && ValidCell(f, r.value)
    ensures r.Ok? && f.htype.ONEOF? ==> r.value.OneOf? && r.value.which == f.tag
    decreases |input|, 1
  {
    DefaultValueValid(f);
    match f.htype
    case REQUIRED | OPTIONAL => (
      match DecValue(f, c.value, input)
      case Ok(v, rest) => Ok(Single(true, v), rest)
      case Truncated => Truncated
      case Malformed => Malformed)
    case REPEATED => (
      if wireType == WT_STRING && f.ltype.Packable() then
        match ReadDelimited(input)
        case Truncated => Truncated
        case Malformed => Malformed
        case Ok(body, rest) =>
          match ReadPacked(f, c.items, body)
          case Some(items) => Ok(Many(items), rest)
          case None => Malformed
      else if |c.items| >= f.arraySize then Malformed
      else
        match DecValue(f, DefaultValue(f), input)
        case Ok(v, rest) => Ok(Many(c.items + [v]), rest)
        case Truncated => Truncated
        case Malformed => Malformed)
    case ONEOF => (
      match DecValue(f, Selected(f, c), input)
      case Ok(v, rest) => Ok(OneOf(f.tag, v), rest)
      case Truncated => Truncated
      case Malformed => Malformed)
  }

  // ----- messages -----

  /** The state of the record loop: the struct, the required fields seen, the fixed-count array being
    * received, and whether a zero tag ended the loop. */
  datatype Progress = Progress(cells: seq<Cell>, seen: set<nat>, current: Option<nat>, stopped: bool)

  function Start(cells: seq<Cell>): Progress {
    Progress(cells, {}, None, false)
  }

  ghost predicate ValidProgress(fields: seq<Field>, p: Progress) {
    && Valid(fields, p.cells)
    && (p.current.Some? ==> p.current.value < |fields| && fields[p.current.value].FixedCount())
  }

  function FindFrom(fields: seq<Field>, tag: nat, i: nat): (r: Option<nat>)
    requires i <= |fields|
    ensures r.Some? ==> i <= r.value < |fields| && fields[r.value].tag == tag
    ensures r.None? ==> forall j | i <= j < |fields| :: fields[j].tag != tag
    decreases |fields| - i
  {
    if i == |fields| then None else if fields[i].tag == tag then Some(i) else FindFrom(fields, tag, i + 1)
  }

  /** The field with the given tag, by linear search. */
  function FindField(fields: seq<Field>, tag: nat): (r: Option<nat>)
    ensures r.Some? ==> r.value < |fields| && fields[r.value].tag == tag
    ensures r.None? ==> forall j | 0 <= j < |fields| :: fields[j].tag != tag
  {
    FindFrom(fields, tag, 0)
  }

  /** The last fixed-count array has received all its elements. */
  predicate CurrentFull(fields: seq<Field>, p: Progress)
    requires |p.cells| == |fields|
  {
    match p.current
    case None => true
    case Some(i) =>
      i < |fields| && var c := p.cells[Home(fields, i)];
      c.Many? && |c.items| == fields[i].arraySize
  }

  /** Bookkeeping before a record of field i is decoded. */
  function Enter(fields: seq<Field>, p: Progress, i: nat): (r: Option<Progress>)
    requires WellFormed(fields) && ValidProgress(fields, p) && i < |fields|
    ensures r.Some? ==> ValidProgress(fields, r.value)
  {
    var f := fields[i];
    assert WellFormedField(f) && ValidCell(f, p.cells[Home(fields, i)]);
    if f.FixedCount() && p.current != Some(i) then
      if CurrentFull(fields, p) then
        var cells := p.cells[Home(fields, i) := Many([])];
        UpdateValid(fields, p.cells, i, Many([]));
        Some(p.(cells := cells, current := Some(i)))
      else None
    else if f.htype.REQUIRED? then Some(p.(seen := p.seen + {i}))
    else Some(p)
  }

  /** One record, after its tag: find the field, decode into it, or skip. */
  function DecRecord(fields: seq<Field>, p: Progress, tag: Tag, input: seq<byte>): (r: Outcome<Progress>)
    requires WellFormed(fields) && ValidProgress(fields, p) && tag.Tag?
    ensures r.Ok? ==> |r.rest| < |input| && ValidProgress(fields, r.value)
    decreases |input|, 2
  {
    match FindField(fields, tag.number)
    case None =>
      // The terminator of an empty list has tag 0, and the descriptor of a required bool.
      var skipped := if fields == [] && tag.number == 0 then SkipBool(input) else SkipField(tag.wireType, input);
      (match skipped
       case Ok(_, rest) => Ok(p, rest)
       case Truncated => Truncated
       case Malformed => Malformed)
    case Some(i) =>
      match Enter(fields, p, i)
      case None => Malformed
      case Some(q) =>
        var f, h := fields[i], Home(fields, i);
        assert WellFormedField(f) && ValidCell(f, q.cells[h]);
        match DecField(f, tag.wireType, q.cells[h], input)
        case Ok(c, rest) =>
          UpdateValid(fields, q.cells, i, c);
          Ok(q.(cells := q.cells[h := c]), rest)
        case Truncated => Truncated
        case Malformed => Malformed
  }

  function SkipBool(input: seq<byte>): (r: Outcome<()>)
    ensures r.Ok? ==> |r.rest| < |input|
  {
    match ReadVarint32(input)
    case Ok(_, rest) => Ok((), rest)
    case Truncated => Truncated
    case Malformed => Malformed
  }

  /** One turn of the loop: a tag, then its record. */
  function DecStep(fields: seq<Field>, p: Progress, input: seq<byte>): (r: Outcome<Progress>)
    requires WellFormed(fields) && ValidProgress(fields, p)
    ensures r.Ok? ==> |r.rest| < |input| && ValidProgress(fields, r.value)
    decreases |input|, 3
  {
    match ReadTag(input)
    case Truncated => Truncated
    case Malformed => Malformed
    case Ok(tag, rest) => if tag.End? then Ok(p.(stopped := true), rest) else DecRecord(fields, p, tag, rest)
  }

  /** The loop of pb_decode_noinit. */
  function DecRecords(fields: seq<Field>, p: Progress, input: seq<byte>): (r: Outcome<Progress>)
    requires WellFormed(fields) && ValidProgress(fields, p)
    ensures r.Ok? ==> |r.rest| <= |input| && ValidProgress(fields, r.value)
    ensures r.Ok? && !r.value.stopped ==> r.rest == []
    decreases |input|, 4
  {
    if input == [] || p.stopped then Ok(p, input)
    else
      match DecStep(fields, p, input)
      case Truncated => Truncated
      case Malformed => Malformed
      case Ok(q, rest) => DecRecords(fields, q, rest)
  }

  /** The number of required fields before field i. */
  function RequiredBefore(fields: seq<Field>, i: nat): (n: nat)
    requires i <= |fields|
    ensures n <= i
  {
    if i == 0 then 0 else RequiredBefore(fields, i - 1) + (if fields[i - 1].htype.REQUIRED? then 1 else 0)
  }

  /** All the required fields that are kept track of have been seen. */
  predicate RequiredSeen(fields: seq<Field>, seen: set<nat>) {
    forall i | 0 <= i < |fields| ::
      fields[i].htype.REQUIRED? && RequiredBefore(fields, i) < MAX_REQUIRED_FIELDS ==> i in seen
  }

  predicate Finished(fields: seq<Field>, p: Progress)
    requires |p.cells| == |fields|
  {
    CurrentFull(fields, p) && RequiredSeen(fields, p.seen)
  }

  /** pb_decode_noinit */
  function DecMessage(fields: seq<Field>, cells: seq<Cell>, input: seq<byte>): (r: Option<seq<Cell>>)
    requires WellFormed(fields) && Valid(fields, cells)
    ensures r.Some? ==> Valid(fields, r.value)
    decreases |input|, 5
  {
    match DecRecords(fields, Start(cells), input)
    case Ok(p, _) => if Finished(fields, p) then Some(p.cells) else None
    case Truncated => None
    case Malformed => None
  }

  /** pb_decode */
  function DecFresh(fields: seq<Field>, input: seq<byte>): (r: Option<seq<Cell>>)
    requires WellFormed(fields)
    ensures r.Some? ==> Valid(fields, r.value)
  {
    DefaultsValid(fields);
    DecMessage(fields, Defaults(fields), input)
  }

  // ----- replacing one cell keeps a struct valid -----

  lemma UpdateValid(fields: seq<Field>, cells: seq<Cell>, i: nat, c: Cell)
    requires WellFormed(fields) && Valid(fields, cells) && i < |fields|
    requires ValidCell(fields[i], c)
    requires fields[i].htype.ONEOF? ==> c.OneOf? && c.which == fields[i].tag
    ensures Valid(fields, cells[Home(fields, i) := c])
  {
    var h := Home(fields, i);
    var cells' := cells[h := c];
    forall j | 0 <= j < |fields|
      ensures ValidCell(fields[j], cells'[Home(fields, j)])
    {
      if Home(fields, j) == h && j != i {
        assert fields[j].htype.ONEOF? && fields[i].htype.ONEOF?;
        assert fields[j].tag != fields[i].tag by { if i < j {} else { assert j < i; } }
      } else if Home(fields, j) != h {
        assert ValidCell(fields[j], cells[Home(fields, j)]);
      }
    }
  }
}
