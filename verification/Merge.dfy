/** What decoding an encoded struct does to the struct it is decoded into: the merge rules of the
  * Protocol Buffers encoding ("Last One Wins"), as functions on structs. */
module Merge {
  import opened Schema
  import opened Encode
  import opened Decode
  import opened Options

  // ----- the field that determines a cell -----

  /** The field, if any, whose record the encoder writes from cell h. */
  function Writer(fields: seq<Field>, m: seq<Cell>, h: nat): (j: Option<nat>)
    requires h < |fields| == |m| && !Continues(fields, h)
    ensures j.Some? ==> j.value < |fields| && Home(fields, j.value) == h && Written(fields[j.value], m[h])
  {
    if !fields[h].htype.ONEOF? then
      if Written(fields[h], m[h]) then Some(h) else None
    else
      match m[h]
      case OneOf(which, _) => (
        match FindField(fields, which)
        case Some(j) => if Home(fields, j) == h then Some(j) else None
        case None => None)
      case _ => None
  }

  lemma WrittenByWriter(fields: seq<Field>, m: seq<Cell>, i: nat)
    requires WellFormed(fields) && Valid(fields, m) && i < |fields|
    ensures Written(fields[i], m[Home(fields, i)]) <==> Writer(fields, m, Home(fields, i)) == Some(i)
  {
    var h := Home(fields, i);
    assert ValidCell(fields[i], m[h]);
    FindUnique(fields, i);
  }

  lemma FindUnique(fields: seq<Field>, i: nat)
    requires WellFormed(fields) && i < |fields|
    ensures FindField(fields, fields[i].tag) == Some(i)
  {
    var r := FindField(fields, fields[i].tag);
    assert r.Some?;
    assert forall j | 0 <= j < |fields| && j != i :: fields[j].tag != fields[i].tag;
  }

  // ----- normal form: what a struct looks like after a round trip -----

  /** Strings end at their first NUL; absent fields have their default value. */
  function NormValue(f: Field, v: Value): Value
    decreases v, 0
  {
    match v
    case Number(_) => v
    case Chars(bs) => if f.ltype.STRING? then Chars(CString(bs, f.dataSize)) else v
    case Message(cells) =>
      if f.ptr.Submessage? && |cells| == |f.ptr.fields| then Message(Normalize(f.ptr.fields, cells)) else v
  }

  function NormItems(f: Field, items: seq<Value>): (r: seq<Value>)
    ensures |r| == |items|
    decreases items
  {
    if items == [] then [] else [NormValue(f, items[0])] + NormItems(f, items[1..])
  }

  function NormCell(f: Field, c: Cell): Cell
    decreases c
  {
    match c
    case Single(_, v) => Single(true, NormValue(f, v))
    case Many(items) => Many(NormItems(f, items))
    case OneOf(which, v) => OneOf(which, NormValue(f, v))
    case _ => c
  }

  function Normalize(fields: seq<Field>, m: seq<Cell>): (r: seq<Cell>)
    requires |m| == |fields|
    ensures |r| == |fields|
    decreases m
  {
    seq(|fields|, h requires 0 <= h < |fields| =>
      if Continues(fields, h) then Shared
      else match Writer(fields, m, h)
           case Some(j) => NormCell(fields[j], m[h])
           case None => DefaultCell(fields[h]))
  }

  // ----- merging -----

  function MergeValue(f: Field, prev: Value, v: Value): (r: Option<Value>)
    requires WellFormedField(f) && ValidValue(f, prev) && ValidValue(f, v)
    ensures r.Some? ==> ValidValue(f, r.value)
    decreases v
  {
    if f.ltype.SUBMESSAGE? then
      match MergeFrom(f.ptr.fields, prev.cells, v.cells, 0)
      case Some(cells) => Some(Message(cells))
      case None => None
    else Some(NormValue(f, v))
  }

  /** The items of a repeated submessage field are new: each is normalized on its own. */
  function MergeCell(f: Field, c: Cell, m: Cell): (r: Option<Cell>)
    requires WellFormedField(f) && ValidCell(f, c) && ValidCell(f, m) && Written(f, m)
    ensures r.Some? ==> ValidCell(f, r.value)
    ensures r.Some? && f.htype.ONEOF? ==> r.value.OneOf? && r.value.which == f.tag
    decreases m
  {
    DefaultValueValid(f);
    match m
    case Single(_, v) => (
      match MergeValue(f, c.value, v)
      case Some(w) => Some(Single(true, w))
      case None => None)
    case Many(items) =>
      NormItemsValid(f, items);
      if f.FixedCount() then Some(Many(NormItems(f, items)))
      else if |c.items| + |items| <= f.arraySize then Some(Many(c.items + NormItems(f, items)))
      else None
    case OneOf(_, v) => (
      match MergeValue(f, Selected(f, c), v)
      case Some(w) => Some(OneOf(f.tag, w))
      case None => None)
  }

  /** Merges the fields of m from the i-th on into c, in the order in which they are encoded. */
  function MergeFrom(fields: seq<Field>, c: seq<Cell>, m: seq<Cell>, i: nat): (r: Option<seq<Cell>>)
    requires WellFormed(fields) && Valid(fields, c) && Valid(fields, m) && i <= |fields|
    ensures r.Some? ==> Valid(fields, r.value)
    decreases m, |fields| - i
  {
    if i == |fields| then Some(c)
    else
      var f, h := fields[i], Home(fields, i);
      assert WellFormedField(f) && ValidCell(f, c[h]) && ValidCell(f, m[h]);
      if !Written(f, m[h]) then MergeFrom(fields, c, m, i + 1)
      else
        match MergeCell(f, c[h], m[h])
        case Some(w) =>
          UpdateValid(fields, c, i, w);
          MergeFrom(fields, c[h := w], m, i + 1)
        case None => None
  }

  // ----- normal forms are valid -----

  lemma {:induction false} NormItemsValid(f: Field, items: seq<Value>)
    requires WellFormedField(f) && forall k | 0 <= k < |items| :: ValidValue(f, items[k])
    ensures forall k | 0 <= k < |items| ::
              ValidValue(f, NormItems(f, items)[k]) && NormItems(f, items)[k] == NormValue(f, items[k])
    decreases items
  {
    if items != [] {
      NormValueValid(f, items[0]);
      NormItemsValid(f, items[1..]);
    }
  }

  lemma {:induction false} NormValueValid(f: Field, v: Value)
    requires WellFormedField(f) && ValidValue(f, v)
    ensures ValidValue(f, NormValue(f, v))
    decreases v
  {
    if v.Message? {
      NormalizeValid(f.ptr.fields, v.cells);
    }
  }

  lemma {:induction false} NormalizeValid(fields: seq<Field>, m: seq<Cell>)
    requires WellFormed(fields) && Valid(fields, m)
    ensures Valid(fields, Normalize(fields, m))
    decreases m
  {
    var r := Normalize(fields, m);
    forall i | 0 <= i < |fields|
      ensures ValidCell(fields[i], r[Home(fields, i)])
    {
      var h := Home(fields, i);
      assert WellFormedField(fields[i]) && WellFormedField(fields[h]);
      match Writer(fields, m, h)
      case None =>
        DefaultValueValid(fields[h]);
        assert r[h] == DefaultCell(fields[h]);
      case Some(j) =>
        assert WellFormedField(fields[j]) && ValidCell(fields[j], m[h]);
        NormCellValid(fields[j], m[h]);
        assert r[h] == NormCell(fields[j], m[h]);
        assert j != i ==> fields[i].tag != fields[j].tag;
    }
  }

  lemma {:induction false} NormCellValid(f: Field, c: Cell)
    requires WellFormedField(f) && ValidCell(f, c) && Written(f, c)
    ensures ValidCell(f, NormCell(f, c))
    decreases c
  {
    match c
    case Single(_, v) => NormValueValid(f, v);
    case Many(items) => NormItemsValid(f, items);
    case OneOf(_, v) => NormValueValid(f, v);
  }

  // ----- merging, cell by cell -----

  /** The contents of cell h after the fields of m from the i-th on have been merged into c. */
  function Merged(fields: seq<Field>, c: seq<Cell>, m: seq<Cell>, i: nat, h: nat): Option<Cell>
    requires WellFormed(fields) && Valid(fields, c) && Valid(fields, m) && h < |fields|
  {
    if Continues(fields, h) then Some(c[h])
    else
      match Writer(fields, m, h)
      case Some(j) =>
        assert WellFormedField(fields[j]) && ValidCell(fields[j], c[h]) && ValidCell(fields[j], m[h]);
        if j >= i then MergeCell(fields[j], c[h], m[h]) else Some(c[h])
      case None => Some(c[h])
  }

  /** r is the struct whose cells are all merged, if they all can be. */
  ghost predicate Cellwise(fields: seq<Field>, c: seq<Cell>, m: seq<Cell>, i: nat, r: Option<seq<Cell>>)
    requires WellFormed(fields) && Valid(fields, c) && Valid(fields, m)
  {
    match r
    case Some(cells) =>
      |cells| == |fields| && forall h | 0 <= h < |fields| :: Merged(fields, c, m, i, h) == Some(cells[h])
    case None =>
      exists h | 0 <= h < |fields| :: Merged(fields, c, m, i, h).None?
  }

  /** Merging succeeds exactly when it does for every cell, and then works on each cell by itself: a
    * cell that m does not write keeps its contents, any other is merged by the field that writes it. */
  lemma {:induction false} MergeCellwise(fields: seq<Field>, c: seq<Cell>, m: seq<Cell>, i: nat)
    requires WellFormed(fields) && Valid(fields, c) && Valid(fields, m) && i <= |fields|
    ensures Cellwise(fields, c, m, i, MergeFrom(fields, c, m, i))
    decreases |fields| - i
  {
    hide MergeCell, Written, Writer, Merged, Cellwise, ValidCell, WellFormedField, Home;
    if i == |fields| {
      MergedAtEnd(fields, c, m);
    } else {
      var f, g := fields[i], Home(fields, i);
      assert WellFormedField(f) && ValidCell(f, c[g]) && ValidCell(f, m[g]);
      WrittenByWriter(fields, m, i);
      if !Written(f, m[g]) {
        MergeCellwise(fields, c, m, i + 1);
        CellwiseStep(fields, c, c, m, i, MergeFrom(fields, c, m, i + 1));
      } else {
        MergedByField(fields, c, m, i);
        if MergeCell(f, c[g], m[g]).Some? {
          var c' := c[g := MergeCell(f, c[g], m[g]).value];
          UpdateValid(fields, c, i, c'[g]);
          MergeCellwise(fields, c', m, i + 1);
          CellwiseStep(fields, c, c', m, i, MergeFrom(fields, c', m, i + 1));
        } else {
          CellwiseFails(fields, c, m, i);
        }
      }
    }
  }

  lemma CellwiseFails(fields: seq<Field>, c: seq<Cell>, m: seq<Cell>, i: nat)
    requires WellFormed(fields) && Valid(fields, c) && Valid(fields, m) && i < |fields|
    requires Merged(fields, c, m, i, Home(fields, i)).None?
    ensures Cellwise(fields, c, m, i, None)
  {
  }

  /** Dealing with field i first does not change what becomes of any cell. */
  lemma CellwiseStep(fields: seq<Field>, c: seq<Cell>, c': seq<Cell>, m: seq<Cell>, i: nat, r: Option<seq<Cell>>)
    requires WellFormed(fields) && Valid(fields, c) && Valid(fields, c') && Valid(fields, m) && i < |fields|
    requires forall k | 0 <= k < |fields| && k != Home(fields, i) :: c'[k] == c[k]
    requires var g := Home(fields, i);
             if Writer(fields, m, g) == Some(i) then Merged(fields, c, m, i, g) == Some(c'[g]) else c'[g] == c[g]
    requires Cellwise(fields, c', m, i + 1, r)
    ensures Cellwise(fields, c, m, i, r)
  {
    hide Merged, Writer;
    var next := i + 1;
    forall h | 0 <= h < |fields|
      ensures Merged(fields, c, m, i, h) == Merged(fields, c', m, next, h)
    {
      MergedAfter(fields, c, c', m, i, h);
    }
  }

  lemma MergedAtEnd(fields: seq<Field>, c: seq<Cell>, m: seq<Cell>)
    requires WellFormed(fields) && Valid(fields, c) && Valid(fields, m)
    ensures Cellwise(fields, c, m, |fields|, Some(c))
  {
    hide MergeCell, Written;
  }

  lemma MergedByField(fields: seq<Field>, c: seq<Cell>, m: seq<Cell>, i: nat)
    requires WellFormed(fields) && Valid(fields, c) && Valid(fields, m) && i < |fields|
    requires Writer(fields, m, Home(fields, i)) == Some(i)
    ensures WellFormedField(fields[i])
    ensures ValidCell(fields[i], c[Home(fields, i)]) && ValidCell(fields[i], m[Home(fields, i)])
    ensures Merged(fields, c, m, i, Home(fields, i)) == MergeCell(fields[i], c[Home(fields, i)], m[Home(fields, i)])
  {
    hide MergeCell, Written;
  }

  lemma MergedAfter(fields: seq<Field>, c: seq<Cell>, c': seq<Cell>, m: seq<Cell>, i: nat, h: nat)
    requires WellFormed(fields) && Valid(fields, c) && Valid(fields, c') && Valid(fields, m)
    requires i < |fields| && h < |fields|
    requires h != Home(fields, i) || Writer(fields, m, h) != Some(i) ==> c'[h] == c[h]
    requires h == Home(fields, i) && Writer(fields, m, h) == Some(i) ==> Merged(fields, c, m, i, h) == Some(c'[h])
    ensures Merged(fields, c, m, i, h) == Merged(fields, c', m, i + 1, h)
  {
    assert |m| == |fields|;
    hide MergeCell, Written, WellFormed, Valid;
    if !Continues(fields, h) && Writer(fields, m, h).Some? {
      var j := Writer(fields, m, h).value;
      assert j == i ==> h == Home(fields, i);
    }
  }

  // ----- merging into default values normalizes -----

  lemma {:induction false} MergeIntoDefault(f: Field, v: Value)
    requires WellFormedField(f) && ValidValue(f, v)
    ensures ValidValue(f, DefaultValue(f)) && MergeValue(f, DefaultValue(f), v) == Some(NormValue(f, v))
    decreases v, 0
  {
    DefaultValueValid(f);
    if f.ltype.SUBMESSAGE? {
      MergeIntoDefaults(f.ptr.fields, v.cells);
    }
  }

  lemma {:induction false} MergeCellIntoDefault(f: Field, m: Cell)
    requires WellFormedField(f) && ValidCell(f, m) && Written(f, m)
    ensures ValidCell(f, DefaultCell(f)) && MergeCell(f, DefaultCell(f), m) == Some(NormCell(f, m))
    decreases m
  {
    hide MergeFrom;
    DefaultValueValid(f);
    match m
    case Single(_, v) => MergeIntoDefault(f, v);
    case Many(items) => assert [] + NormItems(f, items) == NormItems(f, items);
    case OneOf(_, v) => MergeIntoDefault(f, v);
  }

  lemma {:induction false} MergeIntoDefaults(fields: seq<Field>, m: seq<Cell>)
    requires WellFormed(fields) && Valid(fields, m)
    ensures Valid(fields, Defaults(fields)) && MergeFrom(fields, Defaults(fields), m, 0) == Some(Normalize(fields, m))
    decreases m, 1
  {
    hide Merged, MergeFrom, Normalize;
    var d := Defaults(fields);
    DefaultsValid(fields);
    forall h | 0 <= h < |fields|
      ensures Merged(fields, d, m, 0, h) == Some(Normalize(fields, m)[h])
    {
      MergedIntoDefaults(fields, m, h);
    }
    MergeCellwise(fields, d, m, 0);
    EqualCells(MergeFrom(fields, d, m, 0).value, Normalize(fields, m));
  }

  lemma EqualCells(a: seq<Cell>, b: seq<Cell>)
    requires |a| == |b| && forall h | 0 <= h < |a| :: a[h] == b[h]
    ensures a == b
  {
  }

  lemma {:induction false} MergedIntoDefaults(fields: seq<Field>, m: seq<Cell>, h: nat)
    requires WellFormed(fields) && Valid(fields, m) && h < |fields|
    ensures Valid(fields, Defaults(fields))
    ensures Merged(fields, Defaults(fields), m, 0, h) == Some(Normalize(fields, m)[h])
    decreases m, 0
  {
    hide MergeCell, Written, NormCell;
    DefaultsValid(fields);
    if !Continues(fields, h) {
      match Writer(fields, m, h)
      case None =>
      case Some(j) =>
        assert WellFormedField(fields[j]) && ValidCell(fields[j], m[h]);
        MergeCellIntoDefault(fields[j], m[h]);
        assert DefaultCell(fields[j]) == DefaultCell(fields[h]);
    }
  }
}
