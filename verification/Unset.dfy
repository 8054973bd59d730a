/** What a message holds that nobody has set: the value that decoding leaves in every field without a record,
  * described by itself. */
module Unset {
  import opened Options
  import opened Varints
  import opened Schema
  import opened Decode
  import opened Records

  // ----- unset fields -----

  /** The declared default, and without one zero, or nothing. */
  ghost predicate UnsetValue(f: Field, v: Value)
    decreases f, 0
  {
    match f.ptr
    case Default(d) => v == d
    case Submessage(sub) => v.Message? && UnsetStruct(sub, v.cells)
    case Null =>
      match f.ltype
      case BYTES | STRING => v == Chars([])
      case FIXED_LENGTH_BYTES => v.Chars? && |v.bs| == f.dataSize && forall k | 0 <= k < |v.bs| :: v.bs[k] == 0
      case SUBMESSAGE => false
      case _ => v == Number(0)
  }

  /** No has flag, no elements, no selector. */
  ghost predicate UnsetCell(f: Field, c: Cell)
    decreases f, 1
  {
    match f.htype
    case REQUIRED => c.Single? && UnsetValue(f, c.value)
    case OPTIONAL => c.Single? && (f.sizeOffset != 0 ==> !c.has) && UnsetValue(f, c.value)
    case REPEATED => c == Many([])
    case ONEOF => c == NoneOf
  }

  ghost predicate UnsetStruct(fields: seq<Field>, cells: seq<Cell>)
    decreases fields
  {
    && |cells| == |fields|
    && forall i {:trigger Home(fields, i)} | 0 <= i < |fields| :: UnsetCell(fields[i], cells[Home(fields, i)])
  }

  // ----- setting defaults -----

  lemma {:induction false} DefaultValueUnset(f: Field)
    requires WellFormedField(f)
    ensures UnsetValue(f, DefaultValue(f))
    decreases f
  {
    if f.ptr.Submessage? {
      DefaultsUnset(f.ptr.fields);
    }
  }

  lemma DefaultCellUnset(f: Field)
    requires WellFormedField(f)
    ensures UnsetCell(f, DefaultCell(f))
  {
    DefaultValueUnset(f);
  }

  /** What pb_message_set_to_defaults leaves is unset. */
  lemma {:induction false} DefaultsUnset(fields: seq<Field>)
    requires WellFormed(fields)
    ensures UnsetStruct(fields, Defaults(fields))
    decreases fields
  {
    forall i | 0 <= i < |fields|
      ensures UnsetCell(fields[i], Defaults(fields)[Home(fields, i)])
    {
      var h := Home(fields, i);
      assert WellFormedField(fields[i]) && Defaults(fields)[h] == DefaultCell(fields[h]);
      if h == i {
        DefaultValueUnset(fields[i]);
      }
    }
  }

  /** There is only one such struct. */
  lemma {:induction false} UnsetIsOne(fields: seq<Field>, c: seq<Cell>, d: seq<Cell>)
    requires WellFormed(fields) && Valid(fields, c) && Valid(fields, d)
    requires UnsetStruct(fields, c) && UnsetStruct(fields, d)
    ensures c == d
    decreases fields
  {
    forall h | 0 <= h < |fields|
      ensures c[h] == d[h]
    {
      if !Continues(fields, h) {
        assert Home(fields, h) == h;
        UnsetCellIsOne(fields[h], c[h], d[h]);
      }
    }
  }

  lemma {:induction false} UnsetCellIsOne(f: Field, c: Cell, d: Cell)
    requires WellFormedField(f) && ValidCell(f, c) && ValidCell(f, d) && UnsetCell(f, c) && UnsetCell(f, d)
    ensures c == d
    decreases f
  {
    if f.ltype.SUBMESSAGE? && c.Single? {
      UnsetIsOne(f.ptr.fields, c.value.cells, d.value.cells);
    } else if c.Single? && c.value.Chars? {
      assert c.value.bs == d.value.bs;
    }
  }

  /** Decoding into a fresh struct is decoding into the one that is unset. */
  lemma FreshIsUnset(fields: seq<Field>, c: seq<Cell>, input: seq<byte>)
    requires WellFormed(fields) && Valid(fields, c) && UnsetStruct(fields, c)
    ensures DecFresh(fields, input) == DecMessage(fields, c, input)
  {
    DefaultsValid(fields);
    DefaultsUnset(fields);
    UnsetIsOne(fields, c, Defaults(fields));
  }

  /** No bytes are a message unless a field is required, and then everything is unset. */
  lemma EmptyInput(fields: seq<Field>)
    requires WellFormed(fields)
    ensures DecFresh(fields, []).Some? <==> forall i | 0 <= i < |fields| :: !fields[i].htype.REQUIRED?
    ensures DecFresh(fields, []).Some? ==> UnsetStruct(fields, DecFresh(fields, []).value)
  {
    DefaultsValid(fields);
    DefaultsUnset(fields);
    hide Defaults, UnsetStruct, Valid, WellFormed;
    var c := Defaults(fields);
    assert DecFresh(fields, []) == if RequiredSeen(fields, {}) then Some(c) else None;
    if i :| 0 <= i < |fields| && fields[i].htype.REQUIRED? {
      FirstRequired(fields, i);
    }
  }

  lemma {:induction false} FirstRequired(fields: seq<Field>, i: nat)
    requires i < |fields| && fields[i].htype.REQUIRED?
    ensures !RequiredSeen(fields, {})
    decreases i
  {
    if RequiredBefore(fields, i) > 0 {
      var j := LastRequired(fields, i);
      FirstRequired(fields, j);
    }
  }

  lemma {:induction false} LastRequired(fields: seq<Field>, i: nat) returns (j: nat)
    requires i <= |fields| && RequiredBefore(fields, i) > 0
    ensures j < i && fields[j].htype.REQUIRED?
    decreases i
  {
    if fields[i - 1].htype.REQUIRED? {
      j := i - 1;
    } else {
      j := LastRequired(fields, i - 1);
    }
  }

  // ----- fields without a record -----

  /** The loop meets no record of a field that uses cell h. */
  ghost predicate NoRecordOf(fields: seq<Field>, p: Progress, input: seq<byte>, h: nat)
    requires WellFormed(fields) && ValidProgress(fields, p)
    decreases |input|
  {
    input != [] && !p.stopped && DecStep(fields, p, input).Ok? ==>
      && Target(fields, input) != Some(h)
      && NoRecordOf(fields, DecStep(fields, p, input).value, DecStep(fields, p, input).rest, h)
  }

  lemma StepKeeps(fields: seq<Field>, p: Progress, input: seq<byte>, h: nat)
    requires WellFormed(fields) && ValidProgress(fields, p) && h < |fields|
    requires DecStep(fields, p, input).Ok? && Target(fields, input) != Some(h)
    ensures |DecStep(fields, p, input).value.cells| == |p.cells| == |fields|
    ensures DecStep(fields, p, input).value.cells[h] == p.cells[h]
  {
    hide ReadTag, SkipField, DecField, WellFormedField, ValidCell, Home;
  }

  /** A cell for which there is no record keeps its contents, whatever else is decoded. */
  lemma {:induction false} AbsentKeeps(fields: seq<Field>, p: Progress, input: seq<byte>, h: nat)
    requires WellFormed(fields) && ValidProgress(fields, p) && h < |fields|
    requires DecRecords(fields, p, input).Ok? && NoRecordOf(fields, p, input, h)
    ensures |DecRecords(fields, p, input).value.cells| == |p.cells| == |fields|
    ensures DecRecords(fields, p, input).value.cells[h] == p.cells[h]
    decreases |input|
  {
    assert |p.cells| == |fields|;
    hide DecStep, WellFormed, Valid, Target;
    if input != [] && !p.stopped {
      StepKeeps(fields, p, input, h);
      var next := DecStep(fields, p, input);
      AbsentKeeps(fields, next.value, next.rest, h);
    }
  }

  /** Whatever bytes a struct is decoded from, a field without a record keeps what it had. */
  lemma KeptInMessage(fields: seq<Field>, c: seq<Cell>, input: seq<byte>, h: nat)
    requires WellFormed(fields) && Valid(fields, c) && h < |fields|
    requires DecMessage(fields, c, input).Some? && NoRecordOf(fields, Start(c), input, h)
    ensures |DecMessage(fields, c, input).value| == |c| == |fields|
    ensures DecMessage(fields, c, input).value[h] == c[h]
  {
    hide DecRecords, NoRecordOf, WellFormed, Valid;
    AbsentKeeps(fields, Start(c), input, h);
  }

  /** In particular it stays unset in a fresh struct. */
  lemma AbsentIsUnset(fields: seq<Field>, c: seq<Cell>, input: seq<byte>, i: nat)
    requires WellFormed(fields) && Valid(fields, c) && UnsetStruct(fields, c) && i < |fields|
    requires DecFresh(fields, input).Some? && NoRecordOf(fields, Start(c), input, Home(fields, i))
    ensures |DecFresh(fields, input).value| == |fields|
    ensures UnsetCell(fields[i], DecFresh(fields, input).value[Home(fields, i)])
  {
    FreshIsUnset(fields, c, input);
    KeptInMessage(fields, c, input, Home(fields, i));
    hide DecMessage, DecFresh, WellFormed, Valid, NoRecordOf, UnsetCell;
  }
}
