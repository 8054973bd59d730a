/** The two halves of the codec together, on a buffer in memory. */
module Codec {
  import opened Varints
  import opened Schema
  import opened Encode
  import opened Decode
  import opened Merge
  import opened Readback
  import R = RoundTrip
  import opened Input
  import opened Decoder
  import opened Output
  import opened Encoder

  /** pb_ostream_from_buffer and pb_encode: it succeeds exactly if the struct can be encoded and its bytes
    * fit, and never touches memory behind the size it was given. */
  method EncodeToBuffer(buf: array<byte>, bufsize: nat, fields: seq<Field>, cells: seq<Cell>) returns (ok: bool,
        written: nat)
    requires bufsize <= buf.Length && bufsize < TWO_64
    requires WellFormed(fields) && Typed(fields, cells) && |cells| == |fields| && |EncMessage(fields, cells)| < TWO_64
    modifies buf
    ensures ok <==> Encodable(fields, cells) && |EncMessage(fields, cells)| <= bufsize
    ensures ok ==> written == |EncMessage(fields, cells)| && buf[..written] == EncMessage(fields, cells)
    ensures ok ==> buf[written..] == old(buf[written..])
    ensures written <= bufsize && buf[bufsize..] == old(buf[bufsize..])
  {
    hide WellFormed, Typed, Encodable, EncMessage;
    var stream := new OStream.ToBuffer(buf, 0, bufsize);
    ok := PbEncode(stream, fields, cells);
    written := stream.bytesWritten;
  }

  /** What the sizing pass reports is exactly the capacity that the encoder needs. */
  method EncodeExactly(fields: seq<Field>, cells: seq<Cell>) returns (ok: bool, buf: array<byte>)
    requires WellFormed(fields) && Typed(fields, cells) && |cells| == |fields| && |EncMessage(fields, cells)| < TWO_64
    ensures ok <==> Encodable(fields, cells)
    ensures ok ==> fresh(buf) && buf[..] == EncMessage(fields, cells)
  {
    hide WellFormed, Typed, Encodable, EncMessage;
    var size;
    ok, size := GetEncodedSize(fields, cells);
    buf := new byte[if ok then size else 0];
    if ok {
      var written;
      ok, written := EncodeToBuffer(buf, size, fields, cells);
      assert buf[..] == buf[..written];
    }
  }

  /** Encoding a struct into a buffer and decoding those bytes into any memory of the right layout gives
    * back the struct in its normal form, value by value, unless some length prefix does not fit into 32
    * bits. */
  method EncodeAndDecode(fields: seq<Field>, cells: seq<Cell>, dest: Struct) returns (encoded: bool, decoded: bool)
    requires WellFormed(fields) && Valid(fields, cells) && Typed(fields, cells)
    requires |cells| == |fields| && |EncMessage(fields, cells)| < TWO_63
    requires HasLayout(fields, dest.cells)
    modifies dest
    ensures encoded && (decoded <==> R.Short(fields, cells, 0))
    ensures decoded ==> dest.cells == Normalize(fields, cells) && ReadStruct(fields, cells, dest.cells)
  {
    ValidIsEncodable(fields, cells);
    R.RoundTrip(fields, cells);
    NormalReads(fields, cells);
    hide ReadStruct;
    hide WellFormed, Typed, Valid, Encodable, EncMessage, DecFresh, Normalize, HasLayout, R.Short;
    var buf;
    encoded, buf := EncodeExactly(fields, cells);
    var input := new IStream(buf[..], 0, buf.Length);
    assert input.Rest() == buf[..];
    decoded := DecodeInto(input, fields, dest);
  }
}
