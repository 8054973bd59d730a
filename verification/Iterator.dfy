/** The cyclic field iterator (pb_field_iter_t), with the addresses it computes. */
module Iterator {
  import opened Schema
  import opened Decode
  import opened Options
  import opened Merge

  /** PB_LAST_FIELD, the entry behind the last field. */
  const LAST_FIELD := Field(0, BOOL, REQUIRED, 0, 0, 0, 0, Null)

  function At(fields: seq<Field>, i: nat): Field {
    if i < |fields| then fields[i] else LAST_FIELD
  }

  // ----- a fresh scan -----

  /** The bytes a field occupies. */
  function Extent(f: Field): nat {
    if f.htype.REPEATED? then f.dataSize * f.arraySize else f.dataSize
  }

  /** Where the data of field i is, relative to the struct. */
  function DataOffset(fields: seq<Field>, i: nat): nat {
    if i == 0 then At(fields, 0).dataOffset
    else if SharesUnion(At(fields, i - 1), At(fields, i)) then DataOffset(fields, i - 1)
    else DataOffset(fields, i - 1) + Extent(At(fields, i - 1)) + At(fields, i).dataOffset
  }

  /** Where the count, selector or has flag of field i is; its data if it has none. */
  function SizeOffset(fields: seq<Field>, i: nat): int {
    if i > 0 && SharesUnion(At(fields, i - 1), At(fields, i)) then SizeOffset(fields, i - 1)
    else DataOffset(fields, i) + At(fields, i).sizeOffset
  }

  // ----- the layout of a struct -----

  /** Field k begins behind the end of field i if i is in the union that ends before k. */
  predicate RoomBehind(fields: seq<Field>, i: nat, k: nat)
    requires i < k < |fields|
  {
    !Continues(fields, k) && Home(fields, i) == Home(fields, k - 1) ==>
      Extent(fields[i]) <= Extent(fields[k - 1]) + fields[k].dataOffset
  }

  /** Behind a union there is room for its largest member. */
  predicate WellLaidOut(fields: seq<Field>) {
    forall i, k | 0 <= i < k < |fields| :: RoomBehind(fields, i, k)
  }

  /** Two fields have the same address if they share a cell, and otherwise their regions are disjoint:
    * a struct is faithfully a sequence of cells. */
  lemma {:induction false} CellsAreRegions(fields: seq<Field>, i: nat, j: nat)
    requires WellLaidOut(fields) && i < j < |fields|
    ensures Home(fields, i) == Home(fields, j) ==>
              DataOffset(fields, i) == DataOffset(fields, j) && SizeOffset(fields, i) == SizeOffset(fields, j)
    ensures Home(fields, i) != Home(fields, j) ==> DataOffset(fields, i) + Extent(fields[i]) <= DataOffset(fields, j)
    decreases j
  {
    assert Home(fields, j) == if Continues(fields, j) then Home(fields, j - 1) else j;
    assert RoomBehind(fields, i, j);
    hide Home, WellLaidOut, Extent;
    if i < j - 1 {
      CellsAreRegions(fields, i, j - 1);
    }
  }

  /** The encoder looks for a selector, count or has flag relative to the field, the decoder where the
    * iterator says: that is the same place. */
  lemma {:induction false} SizeIsRelative(fields: seq<Field>, i: nat)
    requires WellFormed(fields) && i < |fields|
    ensures SizeOffset(fields, i) == DataOffset(fields, i) + fields[i].sizeOffset
  {
    if Continues(fields, i) {
      SizeIsRelative(fields, i - 1);
    }
  }

  // ----- the iterator -----

  /** An address inside the struct, or that of the counter for fixed-count arrays in the decoder. */
  datatype Address = InStruct(offset: int) | FixedCounter

  class FieldIter {
    const start: seq<Field>
    var pos: nat
    var requiredFieldIndex: nat
    var pData: nat
    var pSize: Address

    /** All state is that of a fresh scan to the same position. */
    ghost predicate Valid()
      reads this
    {
      && (pos < |start| || (pos == 0 && start == []))
      && requiredFieldIndex == RequiredBefore(start, pos)
      && pData == DataOffset(start, pos)
      && pSize == InStruct(SizeOffset(start, pos))
    }

    /** The same, except that the decoder may have redirected pSize for a fixed-count array. */
    ghost predicate ValidInDecoder()
      reads this
    {
      && (pos < |start| || (pos == 0 && start == []))
      && requiredFieldIndex == RequiredBefore(start, pos)
      && pData == DataOffset(start, pos)
      && (|| pSize == InStruct(SizeOffset(start, pos))
          || (pSize.FixedCounter? && pos < |start| && start[pos].FixedCount()))
    }

    lemma ValidAlsoInDecoder()
      requires Valid()
      ensures ValidInDecoder()
    {
    }

    function Pos(): Field
      reads this
    {
      At(start, pos)
    }

    constructor (fields: seq<Field>)
      requires forall i | 0 <= i < |fields| :: fields[i].tag != 0
      ensures start == fields && pos == 0 && Valid()
    {
      start := fields;
      pos := 0;
      requiredFieldIndex := 0;
      pData := At(fields, 0).dataOffset;
      pSize := InStruct(At(fields, 0).dataOffset + At(fields, 0).sizeOffset);
    }

    /** pb_field_iter_begin */
    method Begin() returns (nonempty: bool)
      requires forall i | 0 <= i < |start| :: start[i].tag != 0
      modifies this
      ensures Valid() && pos == 0
      ensures nonempty <==> start != []
    {
      pos := 0;
      requiredFieldIndex := 0;
      pData := Pos().dataOffset;
      pSize := InStruct(pData + Pos().sizeOffset);
      nonempty := Pos().tag != 0;
    }

    /** pb_field_iter_next */
    method Next() returns (more: bool)
      requires ValidInDecoder() && forall i | 0 <= i < |start| :: start[i].tag != 0
      modifies this
      ensures ValidInDecoder() && (start != [] ==> Valid())
      ensures start == [] ==> !more && pos == old(pos) && pSize == old(pSize)
      ensures start != [] ==> pos == (if old(pos) + 1 < |start| then old(pos) + 1 else 0)
      ensures more <==> old(pos) + 1 < |start|
    {
      var prev := Pos();
      if prev.tag == 0 {
        return false;
      }
      pos := pos + 1;
      if Pos().tag == 0 {
        var _ := Begin();
        return false;
      } else {
        var prevSize := prev.dataSize;
        if prev.htype.ONEOF? && Pos().htype.ONEOF? && Pos().dataOffset == PB_SIZE_MAX {
          return true;
        } else if prev.htype.REPEATED? {
          prevSize := prevSize * prev.arraySize;
        }
        if prev.htype.REQUIRED? {
          requiredFieldIndex := requiredFieldIndex + 1;
        }
        pData := pData + prevSize + Pos().dataOffset;
        pSize := InStruct(pData + Pos().sizeOffset);
        return true;
      }
    }

    /** pb_field_iter_find, from any position. With distinct tags it finds what a linear search from the
      * first field finds. */
    method Find(tag: nat) returns (found: bool)
      requires ValidInDecoder() && forall i | 0 <= i < |start| :: start[i].tag != 0
      modifies this
      ensures ValidInDecoder()
      ensures start != [] ==> (found <==> exists i | 0 <= i < |start| :: start[i].tag == tag)
      ensures start == [] ==> (found <==> tag == 0)
      ensures WellFormed(start) && start != [] ==> FindField(start, tag) == if found then Some(pos) else None
      ensures found ==> Pos().tag == tag
      ensures !found ==> pos == old(pos) && (start != [] ==> Valid())
      ensures found && pos == old(pos) ==> pSize == old(pSize) || Valid()
      ensures found && pos != old(pos) ==> Valid()
    {
      var first := pos;
      ghost var wrapped := false;
      while true
        invariant ValidInDecoder()
        invariant start == [] ==> pos == first == 0 && !wrapped
        invariant !wrapped ==> first <= pos && forall i | first <= i < pos :: start[i].tag != tag
        invariant wrapped ==> start != [] && pos < first
        invariant wrapped ==> forall i | 0 <= i < |start| && (i < pos || first <= i) :: start[i].tag != tag
        invariant pos == first ==> pSize == old(pSize)
        invariant pos != first ==> Valid()
        decreases if wrapped then first - pos else |start| + first - pos
      {
        if Pos().tag == tag {
          if WellFormed(start) && pos < |start| {
            FindUnique(start, pos);
          }
          return true;
        }
        var more := Next();
        wrapped := wrapped || (!more && start != []);
        if pos == first {
          return false;
        }
      }
    }
  }
}
