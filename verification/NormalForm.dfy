/** Normal forms of structs: what a struct looks like after a round trip, and what it looks like after two. */
module NormalForm {
  import opened Varints
  import opened Schema
  import opened Encode
  import opened Merge

  predicate Implicit(f: Field) {
    f.htype.OPTIONAL? && f.sizeOffset == 0
  }

  // ----- one cell of a normal form -----

  /** What field f finds in its cell, c before and d after normalizing. */
  predicate Normalized(f: Field, c: Cell, d: Cell) {
    if Written(f, c) then d == NormCell(f, c)
    else if f.htype.ONEOF? then !Written(f, d)
    else d == DefaultCell(f)
  }

  lemma NormalizedAt(fields: seq<Field>, m: seq<Cell>, h: nat)
    requires h < |fields| == |m| && !Continues(fields, h)
    ensures Normalize(fields, m)[h]
         == match Writer(fields, m, h) case Some(j) => NormCell(fields[j], m[h]) case None => DefaultCell(fields[h])
  {
  }

  /** A member of a union that is not the selected one. */
  lemma OtherMember(fields: seq<Field>, m: seq<Cell>, i: nat, j: nat)
    requires WellFormed(fields) && Valid(fields, m) && i < |fields| == |m| && j < |fields| && i != j
    requires Home(fields, i) == Home(fields, j) && Written(fields[j], m[Home(fields, j)])
    ensures m[Home(fields, i)].OneOf? && m[Home(fields, i)].which == fields[j].tag != fields[i].tag
  {
    var c := m[Home(fields, i)];
    assert ValidCell(fields[j], c);
    assert fields[i].tag != fields[j].tag by { if i < j {} else { assert j < i; } }
  }

  lemma CellNormalized(fields: seq<Field>, m: seq<Cell>, i: nat)
    requires WellFormed(fields) && Valid(fields, m) && i < |fields| == |m|
    ensures WellFormedField(fields[i]) && ValidCell(fields[i], m[Home(fields, i)])
    ensures Normalized(fields[i], m[Home(fields, i)], Normalize(fields, m)[Home(fields, i)])
  {
    var f, h := fields[i], Home(fields, i);
    assert WellFormedField(f) && ValidCell(f, m[h]);
    WrittenByWriter(fields, m, i);
    NormalizedAt(fields, m, h);
    match Writer(fields, m, h)
    case Some(j) =>
      if j != i {
        OtherMember(fields, m, i, j);
        hide WellFormed, Valid, Home, Normalize, Writer, WellFormedField, ValidValue, NormValue;
      }
    case None =>
      hide WellFormed, Valid, Home, Normalize, Writer, WellFormedField, ValidValue, DefaultValue;
      if f.htype.ONEOF? {
        assert DefaultCell(fields[h]) == NoneOf;
      }
  }

  // ----- normal forms in which everything is default -----

  lemma {:induction false} CStringTwice(bs: seq<byte>, max: nat)
    ensures CString(CString(bs, max), max) == CString(bs, max)
  {
    if bs != [] && max != 0 && bs[0] != 0 {
      CStringTwice(bs[1..], max - 1);
      assert CString(bs, max)[1..] == CString(bs[1..], max - 1);
    }
  }

  /** A value that becomes zero becomes the default: it was a submessage. */
  lemma {:induction false} ZeroNormal(f: Field, v: Value)
    requires WellFormedField(f) && ValidValue(f, v) && !IsZero(f, v) && IsZero(f, NormValue(f, v))
    ensures NormValue(f, v) == DefaultValue(f)
    decreases v
  {
    if v.Message? {
      AllDefaultNormal(f.ptr.fields, v.cells);
    }
  }

  /** A normal form in which everything is default is the default struct. */
  lemma {:induction false} AllDefaultNormal(fields: seq<Field>, m: seq<Cell>)
    requires WellFormed(fields) && Valid(fields, m) && AllDefault(fields, Normalize(fields, m))
    ensures Normalize(fields, m) == Defaults(fields)
    decreases m
  {
    forall h | 0 <= h < |fields| && !Continues(fields, h)
      ensures Normalize(fields, m)[h] == DefaultCell(fields[h])
    {
      NormalizedAt(fields, m, h);
      if Writer(fields, m, h).Some? {
        var j := Writer(fields, m, h).value;
        CellNormalized(fields, m, j);
        assert IsDefault(fields[j], Normalize(fields, m)[Home(fields, j)]);
        DefaultCellNormal(fields[j], m[h]);
      }
    }
  }

  lemma {:induction false} DefaultCellNormal(f: Field, c: Cell)
    requires WellFormedField(f) && ValidCell(f, c) && Written(f, c) && IsDefault(f, NormCell(f, c))
    ensures NormCell(f, c) == DefaultCell(f) && !f.htype.ONEOF?
    decreases c
  {
    if c.Single? && Implicit(f) {
      ZeroNormal(f, c.value);
    }
    hide WellFormedField, ValidValue, IsZero, DefaultValue, NormValue;
  }

  /** If everything is default in a struct, then the default struct is its normal form. */
  lemma DefaultNormalizes(fields: seq<Field>, m: seq<Cell>)
    requires WellFormed(fields) && Valid(fields, m) && AllDefault(fields, m)
    ensures Normalize(fields, m) == Defaults(fields)
  {
    forall h | 0 <= h < |fields| && !Continues(fields, h)
      ensures Normalize(fields, m)[h] == DefaultCell(fields[h])
    {
      NormalizedAt(fields, m, h);
    }
  }

  // ----- normalizing twice -----

  /** What an absent field becomes is not changed any more, at any depth. */
  predicate Settled(fields: seq<Field>, m: seq<Cell>)
    requires |m| == |fields|
    decreases m
  {
    forall i {:trigger Home(fields, i)} | 0 <= i < |fields| :: SettledCell(fields[i], m[Home(fields, i)])
  }

  predicate SettledCell(f: Field, c: Cell)
    decreases c
  {
    if !Written(f, c) then
      Implicit(f) ==> IsZero(f, DefaultValue(f)) || NormValue(f, DefaultValue(f)) == DefaultValue(f)
    else if c.Many? then forall k | 0 <= k < |c.items| :: SettledValue(f, c.items[k])
    else SettledValue(f, c.value)
  }

  predicate SettledValue(f: Field, v: Value)
    decreases v
  {
    v.Message? && f.ptr.Submessage? && |v.cells| == |f.ptr.fields| ==> Settled(f.ptr.fields, v.cells)
  }

  lemma {:induction false} ValueTwice(f: Field, v: Value)
    requires WellFormedField(f) && ValidValue(f, v)
    ensures NormValue(f, NormValue(f, v)) == NormValue(f, v) <==> SettledValue(f, v)
    decreases v
  {
    match v
    case Number(_) =>
    case Chars(bs) => CStringTwice(bs, f.dataSize);
    case Message(cells) =>
      NormalizeTwice(f.ptr.fields, cells);
      hide Normalize, Settled;
  }

  lemma {:induction false} ItemsTwice(f: Field, items: seq<Value>)
    requires WellFormedField(f) && forall k | 0 <= k < |items| :: ValidValue(f, items[k])
    ensures NormItems(f, NormItems(f, items)) == NormItems(f, items)
       <==> forall k | 0 <= k < |items| :: SettledValue(f, items[k])
    decreases items
  {
    if items != [] {
      hide WellFormedField, ValidValue, NormValue, SettledValue;
      var r, tail := NormItems(f, items), items[1..];
      ValueTwice(f, items[0]);
      ItemsTwice(f, tail);
      assert r[0] == NormValue(f, items[0]) && r[1..] == NormItems(f, tail);
      assert NormItems(f, r) == r <==> NormValue(f, r[0]) == r[0] && NormItems(f, r[1..]) == r[1..] by {
        assert NormItems(f, r) == [NormValue(f, r[0])] + NormItems(f, r[1..]);
        assert r == [r[0]] + r[1..];
        assert NormItems(f, r)[1..] == NormItems(f, r[1..]);
      }
      assert forall k | 0 <= k < |tail| :: tail[k] == items[k + 1];
      assert forall k | 1 <= k < |items| :: items[k] == tail[k - 1];
    }
  }

  /** A cell that is written stays so, unless its submessage has become the default one. */
  lemma {:induction false} WrittenTwice(f: Field, c: Cell, e: Cell)
    requires WellFormedField(f) && ValidCell(f, c) && Written(f, c) && Normalized(f, NormCell(f, c), e)
    ensures e == NormCell(f, c) <==> SettledCell(f, c)
    decreases c
  {
    match c
    case Many(items) =>
      ItemsTwice(f, items);
      hide WellFormedField, ValidValue, NormValue, SettledValue, IsZero, NormItems;
    case Single(_, v) =>
      ValueTwice(f, v);
      if Implicit(f) && IsZero(f, NormValue(f, v)) {
        ZeroNormal(f, v);
        ZeroSettles(f, v);
      }
      hide WellFormedField, ValidValue, NormValue, SettledValue, IsZero, DefaultValue;
    case OneOf(_, v) =>
      ValueTwice(f, v);
      hide WellFormedField, ValidValue, NormValue, SettledValue, IsZero, DefaultValue;
  }

  lemma {:induction false} ZeroSettles(f: Field, v: Value)
    requires WellFormedField(f) && ValidValue(f, v) && IsZero(f, NormValue(f, v))
    ensures NormValue(f, NormValue(f, v)) == NormValue(f, v)
    decreases v
  {
    match v
    case Number(_) =>
    case Chars(bs) => CStringTwice(bs, f.dataSize);
    case Message(cells) =>
      var sub := f.ptr.fields;
      NormalizeValid(sub, cells);
      AllDefaultNormal(sub, cells);
      DefaultNormalizes(sub, Normalize(sub, cells));
      hide Normalize;
  }

  lemma AbsentTwice(f: Field, c: Cell, e: Cell)
    requires WellFormedField(f) && ValidCell(f, c) && !Written(f, c) && !f.htype.ONEOF?
    requires Normalized(f, DefaultCell(f), e)
    ensures e == DefaultCell(f) <==> SettledCell(f, c)
  {
    hide WellFormedField, ValidValue, NormValue, IsZero, DefaultValue;
  }

  lemma {:induction false} CellTwice(fields: seq<Field>, m: seq<Cell>, i: nat)
    requires WellFormed(fields) && Valid(fields, m) && i < |fields| == |m|
    requires Written(fields[i], m[Home(fields, i)]) || !fields[i].htype.ONEOF?
    ensures var r, h := Normalize(fields, m), Home(fields, i);
            Normalize(fields, r)[h] == r[h] <==> SettledCell(fields[i], m[h])
    decreases m, 0
  {
    var f, h, r := fields[i], Home(fields, i), Normalize(fields, m);
    var c := m[h];
    NormalizeValid(fields, m);
    CellNormalized(fields, m, i);
    CellNormalized(fields, r, i);
    hide WellFormed, Valid, Normalize, Home, WellFormedField, ValidCell, Normalized, SettledCell, DefaultCell, NormCell;
    NormalizedFrom(f, c, r[h]);
    if Written(f, c) {
      WrittenTwice(f, c, Normalize(fields, r)[h]);
    } else {
      AbsentTwice(f, c, Normalize(fields, r)[h]);
    }
  }

  lemma NormalizedFrom(f: Field, c: Cell, d: Cell)
    requires Normalized(f, c, d) && (Written(f, c) || !f.htype.ONEOF?)
    ensures d == if Written(f, c) then NormCell(f, c) else DefaultCell(f)
  {
  }

  /** A union without a selected member has none afterwards. */
  lemma UnionTwice(fields: seq<Field>, m: seq<Cell>, h: nat)
    requires h < |fields| == |m| && !Continues(fields, h) && fields[h].htype.ONEOF? && Writer(fields, m, h).None?
    ensures Normalize(fields, Normalize(fields, m))[h] == Normalize(fields, m)[h]
  {
    NormalizedAt(fields, m, h);
    NormalizedAt(fields, Normalize(fields, m), h);
    assert Normalize(fields, m)[h] == NoneOf;
  }

  lemma AbsentUnionSettles(f: Field, c: Cell)
    requires !Written(f, c) && f.htype.ONEOF?
    ensures SettledCell(f, c)
  {
  }

  lemma {:induction false} KeptIfSettled(fields: seq<Field>, m: seq<Cell>, h: nat)
    requires WellFormed(fields) && Valid(fields, m) && h < |fields| == |m| && Settled(fields, m)
    ensures Normalize(fields, Normalize(fields, m))[h] == Normalize(fields, m)[h]
    decreases m, 1
  {
    if !Continues(fields, h) {
      var w := Writer(fields, m, h);
      if w.None? && fields[h].htype.ONEOF? {
        UnionTwice(fields, m, h);
      } else {
        var i := if w.Some? then w.value else h;
        assert Home(fields, i) == h;
        CellTwice(fields, m, i);
        hide WellFormed, Valid, Normalize, SettledCell, Writer, Home;
        assert SettledCell(fields[i], m[Home(fields, i)]);
      }
    }
  }

  lemma {:induction false} SettledIfKept(fields: seq<Field>, m: seq<Cell>, i: nat)
    requires WellFormed(fields) && Valid(fields, m) && i < |fields| == |m|
    requires Normalize(fields, Normalize(fields, m)) == Normalize(fields, m)
    ensures SettledCell(fields[i], m[Home(fields, i)])
    decreases m, 1
  {
    hide WellFormed, Valid, Normalize, SettledCell, Home;
    if Written(fields[i], m[Home(fields, i)]) || !fields[i].htype.ONEOF? {
      CellTwice(fields, m, i);
    } else {
      AbsentUnionSettles(fields[i], m[Home(fields, i)]);
    }
  }

  /** Normalizing a normal form changes nothing if and only if absent fields have become settled. */
  lemma {:induction false} NormalizeTwice(fields: seq<Field>, m: seq<Cell>)
    requires WellFormed(fields) && Valid(fields, m) && |m| == |fields|
    ensures Normalize(fields, Normalize(fields, m)) == Normalize(fields, m) <==> Settled(fields, m)
    decreases m, 2
  {
    if Settled(fields, m) {
      forall h | 0 <= h < |fields|
        ensures Normalize(fields, Normalize(fields, m))[h] == Normalize(fields, m)[h]
      {
        KeptIfSettled(fields, m, h);
      }
    }
    if Normalize(fields, Normalize(fields, m)) == Normalize(fields, m) {
      forall i | 0 <= i < |fields|
        ensures SettledCell(fields[i], m[Home(fields, i)])
      {
        SettledIfKept(fields, m, i);
      }
    }
    hide WellFormed, Valid, SettledCell, Normalize, Home, Continues;
  }

  // ----- defaults for which this is always so -----

  /** No default holds anything behind a NUL, at any depth. */
  ghost predicate NormalDefaults(fields: seq<Field>)
    decreases fields
  {
    forall i | 0 <= i < |fields| :: NormalDefault(fields[i])
  }

  ghost predicate NormalDefault(f: Field)
    decreases f
  {
    if f.ptr.Submessage? then NormalDefaults(f.ptr.fields) else NormValue(f, DefaultValue(f)) == DefaultValue(f)
  }

  lemma {:induction false} DefaultsNormal(fields: seq<Field>)
    requires WellFormed(fields) && NormalDefaults(fields)
    ensures Normalize(fields, Defaults(fields)) == Defaults(fields)
    decreases fields
  {
    var d := Defaults(fields);
    forall h | 0 <= h < |fields| && !Continues(fields, h)
      ensures Normalize(fields, d)[h] == d[h]
    {
      NormalizedAt(fields, d, h);
      DefaultValueNormal(fields[h]);
      assert d[h] == DefaultCell(fields[h]);
      hide DefaultValue, NormValue;
    }
  }

  lemma {:induction false} DefaultValueNormal(f: Field)
    requires WellFormedField(f) && NormalDefault(f)
    ensures NormValue(f, DefaultValue(f)) == DefaultValue(f)
    decreases f
  {
    if f.ptr.Submessage? {
      DefaultsNormal(f.ptr.fields);
    }
  }

  lemma {:induction false} NormalDefaultsSettle(fields: seq<Field>, m: seq<Cell>)
    requires WellFormed(fields) && Valid(fields, m) && |m| == |fields| && NormalDefaults(fields)
    ensures Settled(fields, m)
    decreases m
  {
    forall i | 0 <= i < |fields|
      ensures SettledCell(fields[i], m[Home(fields, i)])
    {
      var f, c := fields[i], m[Home(fields, i)];
      assert WellFormedField(f) && ValidCell(f, c) && NormalDefault(f);
      DefaultValueNormal(f);
      NormalDefaultSettles(f, c);
    }
  }

  lemma {:induction false} NormalDefaultSettles(f: Field, c: Cell)
    requires WellFormedField(f) && ValidCell(f, c) && NormalDefault(f)
    requires NormValue(f, DefaultValue(f)) == DefaultValue(f)
    ensures SettledCell(f, c)
    decreases c
  {
    match c
    case Single(_, v) => NormalValueSettles(f, v);
    case Many(items) =>
      forall k | 0 <= k < |items| ensures SettledValue(f, items[k]) { NormalValueSettles(f, items[k]); }
    case OneOf(which, v) => if which == f.tag { NormalValueSettles(f, v); }
    case _ =>
  }

  lemma {:induction false} NormalValueSettles(f: Field, v: Value)
    requires WellFormedField(f) && ValidValue(f, v) && NormalDefault(f)
    ensures SettledValue(f, v)
    decreases v
  {
    if v.Message? {
      NormalDefaultsSettle(f.ptr.fields, v.cells);
    }
  }

  // ----- a default for which it is not -----

  /** A message of one field outside a union. */
  lemma OneField(f: Field, c: Cell)
    requires WellFormedField(f) && ValidCell(f, c) && !f.htype.ONEOF?
    ensures WellFormed([f]) && Valid([f], [c])
    ensures EncMessage([f], [c]) == EncField(f, c)
    ensures Normalize([f], [c]) == [if Written(f, c) then NormCell(f, c) else DefaultCell(f)]
  {
    var fields, m := [f], [c];
    assert Home(fields, 0) == 0 && fields[0] == f && m[0] == c;
    hide WellFormedField, ValidCell, EncField, NormCell, DefaultCell, Written;
    assert EncFrom(fields, m, 1) == [];
    assert EncFrom(fields, m, 0) == EncField(f, c) + EncFrom(fields, m, 1);
  }

  /** An absent string becomes its default, and loses what that holds behind a NUL the second time. */
  lemma DefaultIsCut() returns (fields: seq<Field>, m: seq<Cell>)
    ensures WellFormed(fields) && Valid(fields, m) && |m| == |fields|
    ensures Normalize(fields, Normalize(fields, m)) != Normalize(fields, m)
  {
    var long, short := Chars([1, 0, 1]), Chars([1]);
    var f := Field(1, STRING, OPTIONAL, 0, 0, 4, 0, Default(long));
    var c, d := Single(true, Chars([])), Single(true, long);
    fields, m := [f], [c];
    assert CString(long.bs, 4) == [1] by {
      assert long.bs[1..] == [0, 1] && CString([0, 1], 3) == [];
    }
    assert NormCell(f, d) == Single(true, short) && DefaultCell(f) == d;
    OneField(f, c);
    OneField(f, d);
    hide *;
  }
}
