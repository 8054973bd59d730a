/** Decoding and encoding again: when the normal form of a struct has the same encoding as the struct. */
module Reencode {
  import opened Options
  import opened Varints
  import opened Schema
  import opened Encode
  import opened Decode
  import opened Merge
  import opened NormalForm
  import R = RoundTrip

  // ----- the exact condition -----

  /** Every field is written again exactly if it was written, at any depth. A field with implicit presence
    * changes sides if it was zero and has another default, or if nothing is left of a submessage. */
  predicate Stable(fields: seq<Field>, m: seq<Cell>)
    requires |m| == |fields|
    decreases m
  {
    forall i {:trigger Home(fields, i)} | 0 <= i < |fields| :: StableCell(fields[i], m[Home(fields, i)])
  }

  predicate StableCell(f: Field, c: Cell)
    decreases c
  {
    && (Implicit(f) && c.Single? ==>
          if IsZero(f, c.value) then IsZero(f, DefaultValue(f)) else !IsZero(f, NormValue(f, c.value)))
    && (Written(f, c) ==>
          if c.Many? then forall k | 0 <= k < |c.items| :: StableValue(f, c.items[k]) else StableValue(f, c.value))
  }

  predicate StableValue(f: Field, v: Value)
    decreases v
  {
    v.Message? && f.ptr.Submessage? && |v.cells| == |f.ptr.fields| ==> Stable(f.ptr.fields, v.cells)
  }

  // ----- equal bytes are equal piece by piece -----

  lemma TagSplits(w: nat, tag: nat, v: nat, other: nat, x: seq<byte>, y: seq<byte>)
    requires w < 8 && tag < 0x2000_0000 && v < 8 && other < 0x2000_0000
    requires EncTag(w, tag) + x == EncTag(v, other) + y
    ensures tag == other && x == y
  {
    hide EncVarint;
    ModSmall(tag * 8 + w);
    ModSmall(other * 8 + v);
    EncVarintPrefixFree(tag * 8 + w, other * 8 + v, x, y);
  }

  lemma DelimitedSplits(body: seq<byte>, other: seq<byte>, x: seq<byte>, y: seq<byte>)
    requires EncDelimited(body) + x == EncDelimited(other) + y
    ensures body == other && x == y
  {
    assert EncDelimited(body) + x == EncVarint(|body|) + (body + x);
    assert EncDelimited(other) + y == EncVarint(|other|) + (other + y);
    EncVarintPrefixFree(|body|, |other|, body + x, other + y);
    SameLengthSplits(body, other, x, y);
  }

  lemma SameLengthSplits(a: seq<byte>, b: seq<byte>, x: seq<byte>, y: seq<byte>)
    requires |a| == |b| && a + x == b + y
    ensures a == b && x == y
  {
    assert a == (a + x)[..|a|] && b == (b + y)[..|b|];
    assert x == (a + x)[|a|..] && y == (b + y)[|b|..];
  }

  lemma ValueSplits(f: Field, v: Value, x: seq<byte>, y: seq<byte>)
    requires EncValue(f, v) + x == EncValue(f, NormValue(f, v)) + y
    ensures EncValue(f, v) == EncValue(f, NormValue(f, v)) && x == y
  {
    if NormValue(f, v) == v {
      SameLengthSplits(EncValue(f, v), EncValue(f, v), x, y);
    } else {
      var body := DelimitedValue(f, v);
      var other := DelimitedValue(f, NormValue(f, v));
      hide EncValue, NormValue, EncDelimited;
      DelimitedSplits(body, other, x, y);
    }
  }

  lemma DelimitedValue(f: Field, v: Value) returns (body: seq<byte>)
    requires v.Chars? || (v.Message? && f.ptr.Submessage? && |v.cells| == |f.ptr.fields|)
    ensures EncValue(f, v) == EncDelimited(body)
  {
    body := match v
            case Chars(bs) => if f.ltype.STRING? then CString(bs, f.dataSize) else bs
            case Message(cells) => EncFrom(f.ptr.fields, cells, 0);
  }

  lemma {:induction false} ItemsSplit(f: Field, items: seq<Value>, x: seq<byte>, y: seq<byte>)
    requires EncRecords(f, items) + x == EncRecords(f, NormItems(f, items)) + y
    ensures EncRecords(f, items) == EncRecords(f, NormItems(f, items)) && x == y
    ensures forall k | 0 <= k < |items| :: EncValue(f, items[k]) == EncValue(f, NormValue(f, items[k]))
    decreases |items|
  {
    if items == [] {
      SameLengthSplits([], [], x, y);
    } else {
      var v, tail := items[0], items[1..];
      var w := NormValue(f, v);
      RecordsSplit(f, items, x);
      RecordsSplit(f, NormItems(f, items), y);
      assert NormItems(f, items)[0] == w && NormItems(f, items)[1..] == NormItems(f, tail);
      var tag, p, q := EncTag(WireType(f.ltype), f.tag), EncRecords(f, tail) + x, EncRecords(f, NormItems(f, tail)) + y;
      hide EncTag, EncRecords, NormItems, EncValue, NormValue;
      SameLengthSplits(tag, tag, EncValue(f, v) + p, EncValue(f, w) + q);
      ValueSplits(f, v, p, q);
      ItemsSplit(f, tail, x, y);
      assert forall k | 1 <= k < |items| :: items[k] == tail[k - 1];
    }
  }

  lemma RecordsSplit(f: Field, items: seq<Value>, x: seq<byte>)
    requires items != []
    ensures EncRecords(f, items)
         == EncTag(WireType(f.ltype), f.tag) + EncValue(f, items[0]) + EncRecords(f, items[1..])
    ensures EncRecords(f, items) + x
         == EncTag(WireType(f.ltype), f.tag) + (EncValue(f, items[0]) + (EncRecords(f, items[1..]) + x))
  {
  }


  lemma RecordSplits(f: Field, v: Value, x: seq<byte>, y: seq<byte>)
    requires EncTag(WireType(f.ltype), f.tag) + EncValue(f, v) + x
          == EncTag(WireType(f.ltype), f.tag) + EncValue(f, NormValue(f, v)) + y
    ensures EncValue(f, v) == EncValue(f, NormValue(f, v)) && x == y
  {
    hide *;
    var tag, w := EncTag(WireType(f.ltype), f.tag), NormValue(f, v);
    assert tag + EncValue(f, v) + x == tag + (EncValue(f, v) + x);
    assert tag + EncValue(f, w) + y == tag + (EncValue(f, w) + y);
    SameLengthSplits(tag, tag, EncValue(f, v) + x, EncValue(f, w) + y);
    ValueSplits(f, v, x, y);
  }

  lemma FieldSplits(f: Field, c: Cell, d: Cell, x: seq<byte>, y: seq<byte>)
    requires WellFormedField(f) && ValidCell(f, c) && Normalized(f, c, d) && (Written(f, c) <==> Written(f, d))
    requires EncField(f, c) + x == EncField(f, d) + y
    ensures EncField(f, c) == EncField(f, d) && x == y
  {
    if !Written(f, c) {
      SameLengthSplits([], [], x, y);
    } else if !c.Many? {
      assert d.value == NormValue(f, c.value);
      hide WellFormedField, ValidValue, Written, NormValue, EncValue, EncTag;
      RecordSplits(f, c.value, x, y);
    } else if f.ltype.Packable() {
      R.NormNumbers(f, c.items);
      SameLengthSplits(EncField(f, c), EncField(f, c), x, y);
    } else {
      ItemsSplit(f, c.items, x, y);
    }
  }

  // ----- a field cannot make up for another -----

  lemma FieldHasTag(f: Field, c: Cell) returns (w: nat, rest: seq<byte>)
    requires Written(f, c)
    ensures w < 8 && EncField(f, c) == EncTag(w, f.tag) + rest
  {
    if c.Many? && f.ltype.Packable() {
      w, rest := WT_STRING, EncDelimited(EncPacked(f, c.items));
    } else if c.Many? {
      w, rest := WireType(f.ltype), EncValue(f, c.items[0]) + EncRecords(f, c.items[1..]);
      RecordsSplit(f, c.items, []);
      assert EncField(f, c) == EncRecords(f, c.items) == EncRecords(f, c.items) + [];
      assert rest == EncValue(f, c.items[0]) + (EncRecords(f, c.items[1..]) + []);
    } else {
      w, rest := WireType(f.ltype), EncValue(f, c.value);
    }
  }

  /** What the fields from the i-th on are encoded to begins with the tag of one of them. */
  lemma {:induction false} FirstTag(fields: seq<Field>, cells: seq<Cell>, i: nat)
    returns (j: nat, w: nat, rest: seq<byte>)
    requires i <= |fields| == |cells| && EncFrom(fields, cells, i) != []
    ensures i <= j < |fields| && w < 8 && EncFrom(fields, cells, i) == EncTag(w, fields[j].tag) + rest
    decreases |fields| - i
  {
    hide EncField, Written, EncTag, Home;
    var f, c := fields[i], cells[Home(fields, i)];
    WrittenHasBytes(f, c);
    if Written(f, c) {
      j := i;
      w, rest := FieldHasTag(f, c);
      rest := rest + EncFrom(fields, cells, i + 1);
    } else {
      j, w, rest := FirstTag(fields, cells, i + 1);
    }
  }

  lemma DifferentTags(fields: seq<Field>, i: nat, j: nat)
    requires WellFormed(fields) && i < j < |fields|
    ensures fields[i].tag != fields[j].tag && fields[i].tag < 0x2000_0000 && fields[j].tag < 0x2000_0000
  {
    assert WellFormedField(fields[i]) && WellFormedField(fields[j]);
  }

  lemma NotMadeUpFor(fields: seq<Field>, i: nat, c: Cell, x: seq<byte>, cells: seq<Cell>)
    requires WellFormed(fields) && i < |fields| == |cells| && Written(fields[i], c)
    ensures EncField(fields[i], c) + x != EncFrom(fields, cells, i + 1)
  {
    hide *;
    WrittenHasBytes(fields[i], c);
    if EncField(fields[i], c) + x == EncFrom(fields, cells, i + 1) {
      var w, rest := FieldHasTag(fields[i], c);
      var j, v, other := FirstTag(fields, cells, i + 1);
      DifferentTags(fields, i, j);
      assert EncTag(w, fields[i].tag) + (rest + x) == EncTag(v, fields[j].tag) + other;
      TagSplits(w, fields[i].tag, v, fields[j].tag, rest + x, other);
    }
  }

  /** So equal encodings are equal field by field. */
  lemma {:induction false} FieldsSplit(fields: seq<Field>, m: seq<Cell>, i: nat)
    requires WellFormed(fields) && Valid(fields, m) && i <= |fields| == |m|
    requires EncFrom(fields, m, i) == EncFrom(fields, Normalize(fields, m), i)
    ensures forall j {:trigger Home(fields, j)} | i <= j < |fields| ::
              EncField(fields[j], m[Home(fields, j)]) == EncField(fields[j], Normalize(fields, m)[Home(fields, j)])
    decreases |fields| - i
  {
    if i < |fields| {
      var f, h, r, next := fields[i], Home(fields, i), Normalize(fields, m), i + 1;
      CellNormalized(fields, m, i);
      hide WellFormed, Valid, Normalize, Home, Continues, Written, EncField, WellFormedField, ValidCell, Normalized;
      var c, d := m[h], r[h];
      var x, y := EncFrom(fields, m, next), EncFrom(fields, r, next);
      assert EncFrom(fields, m, i) == EncField(f, c) + x && EncFrom(fields, r, i) == EncField(f, d) + y;
      hide EncFrom;
      SameSide(fields, m, i, c, d);
      FieldSplits(f, c, d, x, y);
      FieldsSplit(fields, m, next);
    }
  }

  lemma SameSide(fields: seq<Field>, m: seq<Cell>, i: nat, c: Cell, d: Cell)
    requires WellFormed(fields) && i < |fields| == |m|
    requires EncField(fields[i], c) + EncFrom(fields, m, i + 1)
          == EncField(fields[i], d) + EncFrom(fields, Normalize(fields, m), i + 1)
    ensures Written(fields[i], c) <==> Written(fields[i], d)
  {
    var f, r := fields[i], Normalize(fields, m);
    hide WellFormed, Normalize, Written, EncField, EncFrom;
    WrittenHasBytes(f, c);
    WrittenHasBytes(f, d);
    if Written(f, c) {
      NotMadeUpFor(fields, i, c, EncFrom(fields, m, i + 1), r);
    }
    if Written(f, d) {
      NotMadeUpFor(fields, i, d, EncFrom(fields, r, i + 1), m);
    }
  }

  // ----- the same bytes if and only if stable -----

  lemma {:induction false} StableValueExact(f: Field, v: Value)
    requires WellFormedField(f) && ValidValue(f, v)
    ensures EncValue(f, v) == EncValue(f, NormValue(f, v)) <==> StableValue(f, v)
    decreases v
  {
    match v
    case Number(_) =>
    case Chars(bs) => if f.ltype.STRING? { CStringTwice(bs, f.dataSize); }
    case Message(cells) =>
      var sub := f.ptr.fields;
      SameIfStable(sub, cells);
      var body, other := EncMessage(sub, cells), EncMessage(sub, Normalize(sub, cells));
      assert EncValue(f, v) == EncDelimited(body) && EncValue(f, NormValue(f, v)) == EncDelimited(other);
      hide Normalize, Stable, EncFrom, EncDelimited;
      if EncDelimited(body) == EncDelimited(other) {
        DelimitedSplits(body, other, [], []);
      }
  }

  lemma {:induction false} StableItems(f: Field, items: seq<Value>)
    requires forall k | 0 <= k < |items| :: EncValue(f, items[k]) == EncValue(f, NormValue(f, items[k]))
    ensures EncRecords(f, items) == EncRecords(f, NormItems(f, items))
    decreases |items|
  {
    if items != [] {
      StableItems(f, items[1..]);
      RecordsSplit(f, items, []);
      RecordsSplit(f, NormItems(f, items), []);
      assert NormItems(f, items)[1..] == NormItems(f, items[1..]);
    }
  }

  /** A cell that is written. */
  lemma {:induction false} WrittenExact(f: Field, c: Cell)
    requires WellFormedField(f) && ValidCell(f, c) && Written(f, c)
    ensures EncField(f, c) == EncField(f, NormCell(f, c)) <==> StableCell(f, c)
    decreases c
  {
    var d := NormCell(f, c);
    if c.Many? {
      ManyExact(f, c.items);
    } else {
      var tag, v := EncTag(WireType(f.ltype), f.tag), c.value;
      StableValueExact(f, v);
      hide WellFormedField, ValidValue, EncValue, NormValue, EncTag, StableValue, IsZero;
      assert EncField(f, c) == tag + EncValue(f, v);
      if Written(f, d) {
        assert EncField(f, d) == tag + EncValue(f, NormValue(f, v));
        if EncField(f, c) == EncField(f, d) {
          SameLengthSplits(tag, tag, EncValue(f, v), EncValue(f, NormValue(f, v)));
        }
      } else {
        assert EncField(f, d) == [];
      }
    }
  }

  lemma {:induction false} ManyExact(f: Field, items: seq<Value>)
    requires WellFormedField(f) && ValidCell(f, Many(items)) && items != []
    ensures EncField(f, Many(items)) == EncField(f, Many(NormItems(f, items)))
       <==> forall k | 0 <= k < |items| :: StableValue(f, items[k])
    decreases items
  {
    forall k | 0 <= k < |items|
      ensures EncValue(f, items[k]) == EncValue(f, NormValue(f, items[k])) <==> StableValue(f, items[k])
    {
      StableValueExact(f, items[k]);
    }
    if f.ltype.Packable() {
      R.NormNumbers(f, items);
    } else {
      var r := NormItems(f, items);
      assert r != [];
      assert EncField(f, Many(items)) == EncArray(f, items) && EncField(f, Many(r)) == EncArray(f, r);
      assert EncArray(f, items) == EncRecords(f, items) && EncArray(f, r) == EncRecords(f, r);
      hide WellFormedField, ValidCell, EncValue, NormValue, StableValue, EncRecords, NormItems;
      if EncRecords(f, items) == EncRecords(f, r) {
        ItemsSplit(f, items, [], []);
      }
      if forall k | 0 <= k < |items| :: StableValue(f, items[k]) {
        StableItems(f, items);
      }
    }
  }

  /** A cell that is not. */
  lemma AbsentExact(f: Field, c: Cell, d: Cell)
    requires WellFormedField(f) && ValidCell(f, c) && !Written(f, c) && Normalized(f, c, d)
    ensures EncField(f, c) == EncField(f, d) <==> StableCell(f, c)
  {
    WrittenHasBytes(f, d);
    hide WellFormedField, ValidValue, NormValue, IsZero, DefaultValue, StableValue, EncValue, EncArray;
  }

  lemma {:induction false} CellExact(fields: seq<Field>, m: seq<Cell>, i: nat)
    requires WellFormed(fields) && Valid(fields, m) && i < |fields| == |m|
    ensures EncField(fields[i], m[Home(fields, i)]) == EncField(fields[i], Normalize(fields, m)[Home(fields, i)])
       <==> StableCell(fields[i], m[Home(fields, i)])
    decreases m, 0
  {
    var f, c := fields[i], m[Home(fields, i)];
    CellNormalized(fields, m, i);
    hide WellFormed, Valid, Normalize, Home, EncField, StableCell, WellFormedField, ValidCell, NormCell, DefaultCell;
    if Written(f, c) {
      WrittenExact(f, c);
    } else {
      AbsentExact(f, c, Normalize(fields, m)[Home(fields, i)]);
    }
  }

  lemma {:induction false} SameFields(fields: seq<Field>, m: seq<Cell>, r: seq<Cell>, i: nat)
    requires |r| == |m| == |fields| && i <= |fields|
    requires forall j {:trigger Home(fields, j)} | 0 <= j < |fields| ::
               EncField(fields[j], m[Home(fields, j)]) == EncField(fields[j], r[Home(fields, j)])
    ensures EncFrom(fields, m, i) == EncFrom(fields, r, i)
    decreases |fields| - i
  {
    hide EncField, Home, Continues;
    if i < |fields| {
      SameFields(fields, m, r, i + 1);
    }
  }

  /** The normal form of a struct has the encoding of the struct if and only if the struct is stable. */
  lemma {:induction false} SameIfStable(fields: seq<Field>, m: seq<Cell>)
    requires WellFormed(fields) && Valid(fields, m) && |m| == |fields|
    ensures EncMessage(fields, m) == EncMessage(fields, Normalize(fields, m)) <==> Stable(fields, m)
    decreases m, 1
  {
    forall i | 0 <= i < |fields|
      ensures EncField(fields[i], m[Home(fields, i)]) == EncField(fields[i], Normalize(fields, m)[Home(fields, i)])
         <==> StableCell(fields[i], m[Home(fields, i)])
    {
      CellExact(fields, m, i);
    }
    hide WellFormed, Valid, Normalize, EncField, EncFrom, StableCell, Home, Continues;
    if EncMessage(fields, m) == EncMessage(fields, Normalize(fields, m)) {
      FieldsSplit(fields, m, 0);
    }
    if Stable(fields, m) {
      SameFields(fields, m, Normalize(fields, m), 0);
    }
  }

  /** What is encoded, decoded and encoded again gives the same bytes if and only if all length prefixes fit
    * and the struct is stable. */
  lemma EncodesTheSame(fields: seq<Field>, m: seq<Cell>)
    requires WellFormed(fields) && Valid(fields, m) && Encodable(fields, m) && |m| == |fields|
    requires |EncMessage(fields, m)| < TWO_63
    ensures R.Short(fields, m, 0) <==> DecFresh(fields, EncMessage(fields, m)).Some?
    ensures R.Short(fields, m, 0) ==>
              var d := DecFresh(fields, EncMessage(fields, m)).value;
              |d| == |fields| && (EncMessage(fields, d) == EncMessage(fields, m) <==> Stable(fields, m))
  {
    R.RoundTrip(fields, m);
    SameIfStable(fields, m);
  }

  // ----- structs for which this is always so -----

  /** Fields with implicit presence have no default but zero, at any depth. */
  ghost predicate ZeroDefaults(fields: seq<Field>)
    decreases fields
  {
    forall i | 0 <= i < |fields| :: ZeroDefault(fields[i])
  }

  ghost predicate ZeroDefault(f: Field)
    decreases f
  {
    if f.ptr.Submessage? then ZeroDefaults(f.ptr.fields)
    else Implicit(f) && !f.ltype.FIXED_LENGTH_BYTES? ==> IsZero(f, DefaultValue(f))
  }

  /** Every selector that is set names a member of its union, in all the messages that are written. */
  ghost predicate SelectorsDeep(fields: seq<Field>, m: seq<Cell>)
    requires |m| == |fields|
    decreases m
  {
    && SelectorsValid(fields, m)
    && forall i {:trigger Home(fields, i)} | 0 <= i < |fields| :: SelectorsOfCell(fields[i], m[Home(fields, i)])
  }

  ghost predicate SelectorsOfCell(f: Field, c: Cell)
    decreases c
  {
    Written(f, c) ==>
      if c.Many? then forall k | 0 <= k < |c.items| :: SelectorsOfValue(f, c.items[k]) else SelectorsOfValue(f, c.value)
  }

  ghost predicate SelectorsOfValue(f: Field, v: Value)
    decreases v
  {
    v.Message? && f.ptr.Submessage? && |v.cells| == |f.ptr.fields| ==> SelectorsDeep(f.ptr.fields, v.cells)
  }

  // ----- default structs -----

  /** If anything is default in a message, then so is the message that setting defaults leaves. */
  lemma {:induction false} DefaultsAreDefault(fields: seq<Field>, cells: seq<Cell>)
    requires WellFormed(fields) && Valid(fields, cells) && ZeroDefaults(fields) && AllDefault(fields, cells)
    ensures AllDefault(fields, Defaults(fields))
    decreases cells
  {
    hide IsDefault, ZeroDefault, ValidCell, WellFormedField, DefaultCell;
    forall i | 0 <= i < |fields|
      ensures IsDefault(fields[i], Defaults(fields)[Home(fields, i)])
    {
      var h := Home(fields, i);
      assert WellFormedField(fields[i]) && ValidCell(fields[i], cells[h]);
      assert IsDefault(fields[i], cells[h]) && ZeroDefault(fields[i]);
      assert Defaults(fields)[h] == DefaultCell(fields[h]);
      DefaultIsDefault(fields[i], fields[h], cells[h]);
    }
  }

  lemma {:induction false} DefaultIsDefault(f: Field, first: Field, c: Cell)
    requires WellFormedField(f) && ValidCell(f, c) && ZeroDefault(f) && IsDefault(f, c)
    requires f == first || (f.htype.ONEOF? && first.htype.ONEOF?)
    ensures IsDefault(f, DefaultCell(first))
    decreases c
  {
    if Implicit(f) {
      ImplicitDefault(f, c.value);
    }
    hide DefaultValue, IsZero, WellFormedField, ZeroDefault;
  }

  lemma {:induction false} ImplicitDefault(f: Field, v: Value)
    requires WellFormedField(f) && ValidValue(f, v) && ZeroDefault(f) && Implicit(f) && IsZero(f, v)
    ensures IsZero(f, DefaultValue(f))
    decreases v
  {
    if f.ltype.SUBMESSAGE? {
      DefaultsAreDefault(f.ptr.fields, v.cells);
    }
  }

  // ----- such structs are stable -----

  lemma {:induction false} UsuallyStableValue(f: Field, v: Value)
    requires WellFormedField(f) && ValidValue(f, v) && ZeroDefault(f) && SelectorsOfValue(f, v)
    ensures StableValue(f, v)
    ensures !IsZero(f, v) ==> !IsZero(f, NormValue(f, v))
    decreases v
  {
    if v.Message? {
      var sub := f.ptr.fields;
      UsuallyStable(sub, v.cells);
      if AllDefault(sub, Normalize(sub, v.cells)) {
        DefaultBefore(sub, v.cells);
      }
    }
  }

  lemma {:induction false} UsuallyStableCell(f: Field, c: Cell)
    requires WellFormedField(f) && ValidCell(f, c) && ZeroDefault(f) && SelectorsOfCell(f, c)
    ensures StableCell(f, c)
    decreases c
  {
    if Implicit(f) && IsZero(f, c.value) {
      ImplicitDefault(f, c.value);
    }
    if Written(f, c) {
      if c.Many? {
        forall k | 0 <= k < |c.items| ensures StableValue(f, c.items[k]) { UsuallyStableValue(f, c.items[k]); }
      } else {
        UsuallyStableValue(f, c.value);
      }
    }
    hide WellFormedField, ValidValue, ZeroDefault, SelectorsOfValue, StableValue, IsZero, NormValue, DefaultValue;
  }

  /** Without other defaults than zero and without selectors that name no member every struct is stable. */
  lemma {:induction false} UsuallyStable(fields: seq<Field>, m: seq<Cell>)
    requires WellFormed(fields) && Valid(fields, m) && |m| == |fields|
    requires ZeroDefaults(fields) && SelectorsDeep(fields, m)
    ensures Stable(fields, m)
    decreases m, 1
  {
    forall i | 0 <= i < |fields|
      ensures StableCell(fields[i], m[Home(fields, i)])
    {
      var f, c := fields[i], m[Home(fields, i)];
      assert WellFormedField(f) && ValidCell(f, c) && ZeroDefault(f) && SelectorsOfCell(f, c);
      UsuallyStableCell(f, c);
    }
  }

  /** If everything is default in the normal form of a stable struct, then so it was before. */
  lemma DefaultBefore(fields: seq<Field>, m: seq<Cell>)
    requires WellFormed(fields) && Valid(fields, m) && |m| == |fields|
    requires Stable(fields, m) && SelectorsValid(fields, m) && AllDefault(fields, Normalize(fields, m))
    ensures AllDefault(fields, m)
  {
    var r := Normalize(fields, m);
    forall i | 0 <= i < |fields|
      ensures !Written(fields[i], m[Home(fields, i)])
      ensures Normalized(fields[i], m[Home(fields, i)], r[Home(fields, i)]) && IsDefault(fields[i], r[Home(fields, i)])
      ensures ValidCell(fields[i], m[Home(fields, i)])
    {
      var f, c, d := fields[i], m[Home(fields, i)], r[Home(fields, i)];
      CellNormalized(fields, m, i);
      CellExact(fields, m, i);
      assert StableCell(f, c) && IsDefault(f, d) && !Written(f, d);
      hide WellFormed, Valid, Normalize, Stable, SelectorsValid, EncField, Home, StableCell;
      WrittenHasBytes(f, c);
      WrittenHasBytes(f, d);
    }
    assert NoneWritten(fields, m, 0);
    ValidIsNone(fields, m);
    hide WellFormed, Valid, Normalize, Stable, SelectorsValid, Written, IsDefault, Normalized, ValidCell;
    hide Home, Continues;
    forall i | 0 <= i < |fields|
      ensures IsDefault(fields[i], m[Home(fields, i)])
    {
      AbsentDefault(fields[i], m[Home(fields, i)], r[Home(fields, i)]);
    }
  }

  lemma AbsentDefault(f: Field, c: Cell, d: Cell)
    requires ValidCell(f, c) && !Written(f, c) && !c.OneOf? && Normalized(f, c, d) && IsDefault(f, d)
    ensures IsDefault(f, c)
  {
    hide ValidValue, IsZero, DefaultValue, NormValue;
  }

  /** Then the answer of the zero check is the same, too. */
  lemma NormalizeSame(fields: seq<Field>, m: seq<Cell>)
    requires WellFormed(fields) && Valid(fields, m) && |m| == |fields|
    requires ZeroDefaults(fields) && SelectorsDeep(fields, m)
    ensures EncMessage(fields, Normalize(fields, m)) == EncMessage(fields, m)
    ensures AllDefault(fields, Normalize(fields, m)) <==> AllDefault(fields, m)
  {
    UsuallyStable(fields, m);
    SameIfStable(fields, m);
    assert SelectorsValid(fields, m);
    hide WellFormed, Valid, ZeroDefaults, SelectorsDeep, Normalize, AllDefault;
    if AllDefault(fields, Normalize(fields, m)) {
      DefaultBefore(fields, m);
    } else if AllDefault(fields, m) {
      DefaultNormalizes(fields, m);
      DefaultsAreDefault(fields, m);
    }
  }

  // ----- why both conditions are there -----

  lemma OneSelector(f: Field, c: Cell)
    requires !f.htype.ONEOF? && !c.OneOf?
    ensures ZeroDefaults([f]) <==> ZeroDefault(f)
    ensures SelectorsDeep([f], [c]) <==> SelectorsOfCell(f, c)
  {
    assert Home([f], 0) == 0 && [f][0] == f && [c][0] == c;
    hide ZeroDefault, SelectorsOfCell;
  }

  /** A number with implicit presence and the default 5 is not written if it is 0, and then becomes 5. */
  lemma ZeroBecomesDefault() returns (fields: seq<Field>, m: seq<Cell>)
    ensures WellFormed(fields) && Valid(fields, m) && |m| == |fields| && SelectorsDeep(fields, m)
    ensures !ZeroDefaults(fields)
    ensures EncMessage(fields, m) == [] && EncMessage(fields, Normalize(fields, m)) != []
  {
    var f, c := Field(1, VARINT, OPTIONAL, 0, 0, 4, 0, Default(Number(5))), Single(true, Number(0));
    var d := DefaultCell(f);
    fields, m := [f], [c];
    assert !ZeroDefault(f) && d == Single(true, Number(5)) && !Written(f, c) && Written(f, d);
    OneField(f, c);
    OneField(f, d);
    OneSelector(f, c);
    WrittenHasBytes(f, c);
    WrittenHasBytes(f, d);
    hide *;
  }

  lemma DanglingIsCleared() returns (sub: seq<Field>, cells: seq<Cell>)
    ensures WellFormed(sub) && ZeroDefaults(sub) && Valid(sub, cells) && |cells| == |sub| == 1
    ensures !AllDefault(sub, cells) && !SelectorsDeep(sub, cells)
    ensures Normalize(sub, cells) == [NoneOf] && Valid(sub, [NoneOf]) && AllDefault(sub, [NoneOf])
  {
    sub, cells := DanglingSelector();
    assert Home(sub, 0) == 0 && !Continues(sub, 0) && Writer(sub, cells, 0) == None;
    NormalizedAt(sub, cells, 0);
    assert Normalize(sub, cells) == [NoneOf];
  }

  /** A submessage with implicit presence is written if only its selector is set, even to a tag it does not
    * have; it comes back without one, and is then not written. */
  lemma SelectorIsLost() returns (fields: seq<Field>, m: seq<Cell>)
    ensures WellFormed(fields) && Valid(fields, m) && |m| == |fields| && ZeroDefaults(fields)
    ensures !SelectorsDeep(fields, m)
    ensures EncMessage(fields, m) != [] && EncMessage(fields, Normalize(fields, m)) == []
  {
    var sub, cells := DanglingIsCleared();
    var f, v := Field(1, SUBMESSAGE, OPTIONAL, 0, 0, 0, 0, Submessage(sub)), Message(cells);
    var c, d := Single(true, v), Single(true, Message([NoneOf]));
    fields, m := [f], [c];
    hide AllDefault, Normalize, WellFormed, Valid, ZeroDefaults, SelectorsDeep;
    assert NormValue(f, v) == d.value && !IsZero(f, v) && IsZero(f, d.value);
    assert !SelectorsOfValue(f, v) && ZeroDefault(f) && ValidValue(f, d.value) && ValidValue(f, v);
    assert Written(f, c) && !Written(f, d) && !SelectorsOfCell(f, c);
    OneField(f, c);
    OneField(f, d);
    OneSelector(f, c);
    WrittenHasBytes(f, c);
    WrittenHasBytes(f, d);
    hide *;
  }

  // ----- encoding what has been decoded -----

  /** No fixed-count array, at any depth. */
  ghost predicate NoFixedCounts(fields: seq<Field>)
    decreases fields
  {
    forall i | 0 <= i < |fields| :: NoFixedCount(fields[i])
  }

  ghost predicate NoFixedCount(f: Field)
    decreases f
  {
    !f.FixedCount() && (f.ptr.Submessage? ==> NoFixedCounts(f.ptr.fields))
  }

  lemma {:induction false} ValidIsTyped(fields: seq<Field>, cells: seq<Cell>)
    requires WellFormed(fields) && NoFixedCounts(fields) && Valid(fields, cells)
    ensures Typed(fields, cells)
    decreases fields
  {
    forall i | 0 <= i < |fields|
      ensures TypedCell(fields[i], cells[Home(fields, i)])
    {
      var f, c := fields[i], cells[Home(fields, i)];
      assert WellFormedField(f) && ValidCell(f, c) && NoFixedCount(f);
      match c
      case Single(_, v) => ValidValueIsTyped(f, v);
      case Many(items) =>
        forall k | 0 <= k < |items| ensures TypedValue(f, items[k]) { ValidValueIsTyped(f, items[k]); }
      case OneOf(which, v) => if which == f.tag { ValidValueIsTyped(f, v); }
      case NoneOf =>
    }
  }

  lemma {:induction false} ValidValueIsTyped(f: Field, v: Value)
    requires WellFormedField(f) && NoFixedCount(f) && ValidValue(f, v)
    ensures TypedValue(f, v)
    decreases f
  {
    if f.ltype.SUBMESSAGE? {
      ValidIsTyped(f.ptr.fields, v.cells);
    }
  }

  /** Whatever bytes a struct has been decoded from, it can be encoded. What comes back is its normal form,
    * if all length prefixes fit. */
  lemma DecodedIsEncodable(fields: seq<Field>, input: seq<byte>)
    requires WellFormed(fields) && NoFixedCounts(fields) && DecFresh(fields, input).Some?
    ensures var m := DecFresh(fields, input).value;
            && |m| == |fields| && Encodable(fields, m)
            && (|EncMessage(fields, m)| < TWO_63 ==>
                  DecFresh(fields, EncMessage(fields, m))
                  == if R.Short(fields, m, 0) then Some(Normalize(fields, m)) else None)
  {
    var m := DecFresh(fields, input).value;
    ValidIsTyped(fields, m);
    ValidIsEncodable(fields, m);
    hide DecFresh, WellFormed, Valid, Encodable;
    if |EncMessage(fields, m)| < TWO_63 {
      R.RoundTrip(fields, m);
    }
  }
}
