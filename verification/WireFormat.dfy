/** The bytes of an encoding, against the Protocol Buffers encoding as it is documented: what the tags are,
  * which records there are and in which order, and some messages byte by byte. */
module WireFormat {
  import opened Options
  import opened Bits
  import opened Varints
  import opened Schema
  import opened Scalars
  import opened Encode
  import opened Decode
  import opened RoundTrip
  import opened Records
  import opened NormalForm
  import opened Readback

  // ----- tags -----

  /** VARINT, I64, LEN and I32. */
  function WireNumber(ltype: LType): nat {
    match ltype
    case BOOL | VARINT | UVARINT | SVARINT => 0
    case FIXED64 => 1
    case BYTES | STRING | SUBMESSAGE | FIXED_LENGTH_BYTES => 2
    case FIXED32 => 5
  }

  /** A tag is the varint of eight times the field number and the wire type. */
  lemma TagValue(f: Field)
    requires 1 <= f.tag < 0x2000_0000
    ensures Payload(EncTag(WireType(f.ltype), f.tag)) == 8 * f.tag + WireNumber(f.ltype)
    ensures f.tag < 16 ==> EncTag(WireType(f.ltype), f.tag) == [8 * f.tag + WireNumber(f.ltype)]
  {
    var v := 8 * f.tag + WireNumber(f.ltype);
    ModSmall(v);
    EncVarintShape(v, []);
  }

  // ----- records -----

  /** The tags of the records in a message, each with its wire type, found without any descriptor. */
  function Scan(input: seq<byte>): (r: Option<seq<(nat, nat)>>)
    decreases |input|
  {
    if input == [] then Some([])
    else
      match ReadTag(input)
      case Ok(Tag(number, wireType), payload) => (
        match SkipField(wireType, payload)
        case Ok(_, rest) => (
          match Scan(rest)
          case Some(more) => Some([(number, wireType)] + more)
          case None => None)
        case _ => None)
      case _ => None
  }

  function Times(n: nat, r: (nat, nat)): seq<(nat, nat)> {
    if n == 0 then [] else [r] + Times(n - 1, r)
  }

  /** One record for a field that is present; for an array one block if it is packable, else one record for
    * each element. */
  function RecordsOf(f: Field, c: Cell): seq<(nat, nat)> {
    if !Present(f, c) then []
    else if c.Many? && f.ltype.Packable() then [(f.tag, 2)]
    else Times(if c.Many? then |c.items| else 1, (f.tag, WireNumber(f.ltype)))
  }

  function RecordsFrom(fields: seq<Field>, m: seq<Cell>, i: nat): seq<(nat, nat)>
    requires i <= |fields| == |m|
    decreases |fields| - i
  {
    if i == |fields| then [] else RecordsOf(fields[i], m[Home(fields, i)]) + RecordsFrom(fields, m, i + 1)
  }

  /** Records in front of others. */
  function InFront(rs: seq<(nat, nat)>, more: Option<seq<(nat, nat)>>): Option<seq<(nat, nat)>> {
    match more case Some(s) => Some(rs + s) case None => None
  }

  lemma ScansRecord(wireType: nat, tag: nat, payload: seq<byte>, rest: seq<byte>)
    requires wireType < 8 && 1 <= tag < 0x2000_0000 && SkipField(wireType, payload + rest) == Ok((), rest)
    ensures Scan(EncTag(wireType, tag) + payload + rest) == InFront([(tag, wireType)], Scan(rest))
  {
    ReadTagInverts(wireType, tag, payload + rest);
    assert EncTag(wireType, tag) + payload + rest == EncTag(wireType, tag) + (payload + rest);
    hide EncTag, ReadTag, SkipField;
  }

  lemma {:induction false} ScansItems(f: Field, items: seq<Value>, rest: seq<byte>)
    requires WellFormedField(f) && ShortItems(f, items)
    requires forall k | 0 <= k < |items| :: ValidValue(f, items[k]) && EncodableValue(f, items[k])
    ensures Scan(EncRecords(f, items) + rest) == InFront(Times(|items|, (f.tag, WireNumber(f.ltype))), Scan(rest))
    decreases items
  {
    hide WellFormedField, ValidValue, EncodableValue, ShortValue, EncTag, EncValue, Scan;
    var r := (f.tag, WireNumber(f.ltype));
    if items == [] {
      assert EncRecords(f, items) + rest == rest;
      NothingInFront(Scan(rest));
    } else {
      var tail := items[1..];
      assert ShortItems(f, tail) && ShortValue(f, items[0]);
      assert Times(|items|, r) == [r] + Times(|tail|, r);
      RecordsAppend(f, items, rest);
      hide EncRecords, ShortItems, Times, InFront;
      ScansItems(f, tail, rest);
      ScansValue(f, items[0], EncRecords(f, tail) + rest);
      Together(r, Times(|tail|, r), Scan(rest));
    }
  }

  lemma RecordsAppend(f: Field, items: seq<Value>, rest: seq<byte>)
    requires items != []
    ensures EncRecords(f, items) + rest
         == EncTag(WireType(f.ltype), f.tag) + EncValue(f, items[0]) + (EncRecords(f, items[1..]) + rest)
  {
    hide EncTag, EncValue;
  }

  lemma NothingInFront(more: Option<seq<(nat, nat)>>)
    ensures InFront([], more) == more
  {
    assert more.Some? ==> [] + more.value == more.value;
  }

  lemma Together(r: (nat, nat), rs: seq<(nat, nat)>, more: Option<seq<(nat, nat)>>)
    ensures InFront([r], InFront(rs, more)) == InFront([r] + rs, more)
  {
    if more.Some? {
      assert [r] + (rs + more.value) == [r] + rs + more.value;
    }
  }

  lemma ScansValue(f: Field, v: Value, rest: seq<byte>)
    requires WellFormedField(f) && ValidValue(f, v) && EncodableValue(f, v) && ShortValue(f, v)
    ensures Scan(EncTag(WireType(f.ltype), f.tag) + EncValue(f, v) + rest)
         == InFront([(f.tag, WireNumber(f.ltype))], Scan(rest))
  {
    SkipsValue(f, v, rest);
    ScansRecord(WireType(f.ltype), f.tag, EncValue(f, v), rest);
  }

  lemma ScansField(f: Field, c: Cell, rest: seq<byte>)
    requires WellFormedField(f) && ValidCell(f, c) && EncodableCell(f, c) && ShortCell(f, c)
    ensures Scan(EncField(f, c) + rest) == InFront(RecordsOf(f, c), Scan(rest))
  {
    PresentIsWritten(f, c);
    WrittenHasBytes(f, c);
    hide Present, ValidValue, EncValue, EncTag, Scan, ShortValue, EncodableValue;
    if !Written(f, c) {
      assert EncField(f, c) + rest == rest;
      assert Scan(rest).Some? ==> [] + Scan(rest).value == Scan(rest).value;
    } else if !c.Many? {
      ScansValue(f, c.value, rest);
      assert Times(1, (f.tag, WireNumber(f.ltype))) == [(f.tag, WireNumber(f.ltype))];
    } else if f.ltype.Packable() {
      SkipsDelimited(EncPacked(f, c.items), rest);
      ScansRecord(WT_STRING, f.tag, EncDelimited(EncPacked(f, c.items)), rest);
    } else {
      ScansItems(f, c.items, rest);
    }
  }

  lemma {:induction false} ScansFrom(fields: seq<Field>, m: seq<Cell>, i: nat)
    requires WellFormed(fields) && Valid(fields, m) && Encodable(fields, m) && i <= |fields| == |m|
    requires Short(fields, m, i)
    ensures Scan(EncFrom(fields, m, i)) == Some(RecordsFrom(fields, m, i))
    decreases |fields| - i
  {
    if i < |fields| {
      var f, c := fields[i], m[Home(fields, i)];
      assert WellFormedField(f) && ValidCell(f, c) && EncodableCell(f, c) && ShortCell(f, c);
      hide WellFormed, Valid, Encodable, WellFormedField, ValidCell, EncodableCell, ShortCell, EncField, RecordsOf;
      hide Home, Continues, Scan;
      ScansFrom(fields, m, i + 1);
      ScansField(f, c, EncFrom(fields, m, i + 1));
    }
  }

  /** An encoding has one record for each field that is present, in the order of the descriptors. */
  lemma EncodingHasRecords(fields: seq<Field>, m: seq<Cell>)
    requires WellFormed(fields) && Valid(fields, m) && Encodable(fields, m) && |fields| == |m|
    requires Short(fields, m, 0)
    ensures Scan(EncMessage(fields, m)) == Some(RecordsFrom(fields, m, 0))
  {
    ScansFrom(fields, m, 0);
  }

  // ----- documented messages -----

  function Optional(tag: nat, ltype: LType, size: nat): Field {
    Field(tag, ltype, OPTIONAL, 4, -4, size, 0, Null)
  }

  lemma OneFifty()
    ensures EncVarint(150) == [0x96, 0x01]
  {
    assert EncVarint(1) == [1];
  }

  /** `int32 a = 1`, set to 150. */
  lemma Test1()
    ensures EncMessage([Optional(1, VARINT, 4)], [Single(true, Number(150))]) == [0x08, 0x96, 0x01]
  {
    var f, c := Optional(1, VARINT, 4), Single(true, Number(150));
    OneField(f, c);
    TagValue(f);
    OneFifty();
    hide EncVarint, EncTag;
    assert EncField(f, c) == EncTag(WireType(f.ltype), f.tag) + EncVarint(150);
  }

  lemma NoNul(bs: seq<byte>, max: nat)
    requires 0 !in bs && |bs| <= max
    ensures CString(bs, max) == bs
  {
    var cut := CString(bs, max);
    hide CString;
    assert cut == bs[..|cut|];
  }

  /** A text without NULs. */
  lemma StringMessage(tag: nat, size: nat, bs: seq<byte>)
    requires 1 <= tag < 16 && |bs| + 1 <= size <= PB_SIZE_MAX && |bs| < 0x80 && 0 !in bs
    ensures EncMessage([Optional(tag, STRING, size)], [Single(true, Chars(bs))]) == [8 * tag + 2, |bs|] + bs
  {
    var f, c := Optional(tag, STRING, size), Single(true, Chars(bs));
    OneField(f, c);
    TagValue(f);
    NoNul(bs, size);
    assert EncVarint(|bs|) == [|bs|];
    hide CString, EncTag, EncVarint;
    assert EncField(f, c) == EncTag(WireType(f.ltype), f.tag) + EncDelimited(bs);
  }

  /** `string b = 2`, set to "testing". */
  lemma Test2()
    ensures EncMessage([Optional(2, STRING, 8)], [Single(true, Chars([0x74, 0x65, 0x73, 0x74, 0x69, 0x6e, 0x67]))])
         == [0x12, 0x07, 0x74, 0x65, 0x73, 0x74, 0x69, 0x6e, 0x67]
  {
    var bs := [0x74, 0x65, 0x73, 0x74, 0x69, 0x6e, 0x67];
    assert 0 !in bs && |bs| == 7;
    StringMessage(2, 8, bs);
    hide *;
  }

  /** `Test1 c = 3`, whose field a is 150. */
  lemma Test3()
    ensures EncMessage([Optional(3, SUBMESSAGE, 8).(ptr := Submessage([Optional(1, VARINT, 4)]))],
                       [Single(true, Message([Single(true, Number(150))]))])
         == [0x1a, 0x03, 0x08, 0x96, 0x01]
  {
    var sub, cells := [Optional(1, VARINT, 4)], [Single(true, Number(150))];
    var f, c := Optional(3, SUBMESSAGE, 8).(ptr := Submessage(sub)), Single(true, Message(cells));
    Test1();
    OneField(Optional(1, VARINT, 4), cells[0]);
    TagValue(f);
    hide EncTag, EncFrom;
    OneField(f, c);
    assert EncField(f, c) == EncTag(WireType(f.ltype), f.tag) + EncDelimited(EncMessage(sub, cells));
  }

  /** `repeated int32 d = 4 [packed]`, with the elements 3, 270 and 86942. */
  lemma Test4()
    ensures EncMessage([Field(4, VARINT, REPEATED, 4, -4, 4, 3, Null)], [Many([Number(3), Number(270), Number(86942)])])
         == [0x22, 0x06, 0x03, 0x8e, 0x02, 0x9e, 0xa7, 0x05]
  {
    var items := [Number(3), Number(270), Number(86942)];
    var f, c := Field(4, VARINT, REPEATED, 4, -4, 4, 3, Null), Many(items);
    OneField(f, c);
    TagValue(f.(ltype := STRING));
    PackedBytes(f, items);
    hide EncTag, EncPacked;
    assert EncField(f, c) == EncTag(WT_STRING, f.tag) + EncDelimited(EncPacked(f, items));
  }

  lemma PackedBytes(f: Field, items: seq<Value>)
    requires f.ltype.VARINT? && items == [Number(3), Number(270), Number(86942)]
    ensures EncPacked(f, items) == [0x03, 0x8e, 0x02, 0x9e, 0xa7, 0x05]
  {
    assert EncVarint(2) == [2] && EncVarint(5) == [5] && EncVarint(679) == [0xa7] + EncVarint(5);
    assert EncVarint(3) == [0x03] && EncVarint(270) == [0x8e, 0x02] && EncVarint(86942) == [0x9e] + EncVarint(679);
    assert items[1..] == [items[1], items[2]] && items[1..][1..] == [items[2]] && items[1..][1..][1..] == [];
    hide EncVarint;
    assert EncPacked(f, items[1..][1..]) == EncVarint(86942);
    assert EncPacked(f, items[1..]) == EncVarint(270) + EncVarint(86942);
  }

  lemma ZigZagCodes()
    ensures EncNumber(SVARINT, 0) == [0] && EncNumber(SVARINT, -1) == [1] && EncNumber(SVARINT, 1) == [2]
    ensures EncNumber(SVARINT, -2) == [3]
  {
    assert ZigZag(0) == 0 && ZigZag(-1) == 1 && ZigZag(1) == 2 && ZigZag(-2) == 3;
    hide ZigZag;
  }

  /** Any 32-bit number but zero is true. */
  lemma BoolAccepts(v: nat, rest: seq<byte>)
    requires v < TWO_32
    ensures ReadNumber(BOOL, 1, EncVarint(v) + rest) == Ok(if v != 0 then 1 else 0, rest)
  {
    ReadVarint32Inverts(v, rest);
    hide ReadVarint32, EncVarint;
  }

  /** A number of more than ten bytes is rejected. */
  lemma TooManyBytes(input: seq<byte>)
    requires |input| >= 10 && forall k | 0 <= k < 10 :: input[k] >= 0x80
    ensures ReadVarint64(input).Malformed?
  {
    LongSpan(input, 10);
  }

  lemma {:induction false} LongSpan(input: seq<byte>, n: nat)
    requires n <= |input| && forall k | 0 <= k < n :: input[k] >= 0x80
    ensures Span(input) >= n
  {
    if n > 0 {
      LongSpan(input[1..], n - 1);
    }
  }

  /** A negative number is sign-extended to ten bytes, whatever the size of its field. */
  lemma MinusOne()
    ensures EncNumber(VARINT, -1) == [0xff, 0xff, 0xff, 0xff, 0xff, 0xff, 0xff, 0xff, 0xff, 0x01]
  {
    AllOnes(9);
    Powers();
    assert (-1) % TWO_64 == Pow2(64) - 1;
    hide EncVarint, Pow2;
  }

  function Ones(n: nat): seq<byte> {
    seq(n, _ => 0xff)
  }

  lemma {:induction false} AllOnes(n: nat)
    ensures EncVarint(Pow2(7 * n + 1) - 1) == Ones(n) + [0x01]
  {
    if n == 0 {
      assert Pow2(1) == 2;
    } else {
      var v := Pow2(7 * (n - 1) + 1);
      Doubling(7 * (n - 1) + 1);
      AllOnes(n - 1);
      hide Pow2;
      assert (0x80 * v - 1) % 0x80 + 0x80 == 0xff && (0x80 * v - 1) / 0x80 == v - 1;
      assert EncVarint(0x80 * v - 1) == [0xff] + EncVarint(v - 1);
      assert Ones(n) == [0xff] + Ones(n - 1);
    }
  }

  lemma FixedNumber()
    ensures EncNumber(FIXED32, 0x0102_0304) == [4, 3, 2, 1]
  {
    assert LittleEndian(1, 1) == [1];
    assert LittleEndian(0x0102, 2) == [2] + LittleEndian(1, 1);
    assert LittleEndian(0x0102_03, 3) == [3] + LittleEndian(0x0102, 2);
    assert LittleEndian(0x0102_0304, 4) == [4] + LittleEndian(0x0102_03, 3);
  }
}
