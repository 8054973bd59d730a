# Verified models for Traveller's bundled libraries

The project models three libraries that the Traveller app ships with, and proves what they promise.

**nanopb, the Protocol Buffers codec.** A list of field descriptors drives an encoder and a decoder.
A C struct is modelled as a sequence of cells, one for each field; the members of a union share one
(`Schema`). `Encode` and `Decode` give the bytes that a struct is encoded to, and what becomes of a struct
when bytes are decoded into it. `Merge` states the merge rules of the Protocol Buffers encoding ("Last One
Wins", "Optional and Repeated Elements") on structs alone. `RoundTrip` and `Records` connect the three, and
`NormalForm` and `Reencode` go around twice: what is decoded and encoded again. What these functions amount to is
also said without them: `Unset` describes a struct that nobody has set, `Readback` what comes back from an
encoding value by value, `Effects` what a single record does and what a rejected message lacks, and
`WireFormat` the tags, the records and the bytes of documented messages.
The C code itself is modelled as it runs: streams (`Input`, `Output`), the cyclic field iterator
(`Iterator`), the bitmap of required fields (`Bitmap`), the decoder (`Decoder`) and the encoder with its
sizing passes (`Encoder`) are classes and methods that advance and update their state step by step, each
proved against the functions above for every input. `Codec` puts both halves together.

**AlamofireImage's downloader and cache.** `Downloads` is `ImageDownloader` as a state machine, one step for
each block on its serial queue and for each answer of the URL session; `DownloadSafety` proves what holds in
every interleaving, `DownloadPromises` what its documentation says about order, cancelling and the cache, and
`DownloadLimit` when the limit on active downloads holds; `DownloadHistory` derives from the calls made what each
completion is called with; `Downloader` has the class itself, whose methods are the steps. `Caching` and
`ImageCache` do the same for `AutoPurgingImageCache`, where an addition and its purge are separate steps and
dates may be any numbers; `CacheHistory` derives from the calls made what is stored and when it was last accessed.

**Alamofire's multipart encoder.** `Multipart` has the encoding, the grammar of section 5.1.1 of RFC 2046 and
a reader for it, and `PartHeaders` a reader of the headers in a part; `FormData` has the encoder in memory and the one that copies streams in pieces, over streams
that may deliver or take fewer bytes than asked, in any pattern.

## Where the code does less than it says

* A message round-trips exactly if every length prefix in it fits into 32 bits, because lengths are read
  with the 32-bit varint reader (`RoundTrip.RoundTrip`). A packed array of 2^30 numbers of 32 bits does not
  (`RoundTrip.TooLongToRead`).
* The 32-bit reader accepts some varints that do not fit (`Varints.ReadVarint32Lossy`);
  `Varints.ReadVarint32Canonical` says exactly which.
* The zero check for implicit presence and the encoder disagree for a union whose selector names none of its
  members, and only then (`Encode.ZeroCheckAgrees`, `Encode.DanglingSelector`).
* Encoding, decoding and encoding again gives the same bytes if and only if, at every depth, fields with implicit
  presence stay on their side: one that is zero has a default that is zero, and of one that is not something is
  left (`Reencode.EncodesTheSame`, for any struct `Reencode.SameIfStable`). So it is if such fields have no default
  but zero and selectors name members of their unions (`Reencode.UsuallyStable`). Without either it need not be
  (`Reencode.ZeroBecomesDefault`, `Reencode.SelectorIsLost`).
* A second round trip changes nothing any more if and only if absent fields with implicit presence got a default
  that counts as zero or holds nothing behind a NUL (`NormalForm.NormalizeTwice`, `NormalForm.DefaultIsCut`).
* "The maximum number of active downloads allowed at any given time" can be exceeded
  (`DownloadLimit.LimitBroken`), but only after a request was cancelled that had not been started
  (`DownloadLimit.LimitKept`). Without further such cancellations it can be exceeded from exactly those states
  in which the counter is below the number of running downloads, or a request that never took a slot is on its
  way to giving one back (`DownloadLimit.LimitExact`).
* The documentation of `cancelRequest` says that a completion handler that is removed "will not be called". It
  is always called, with the error `requestCancelled` unless it had been called before
  (`DownloadPromises.CancelledIsCalled`, for example in `DownloadPromises.CancelAtOnce`).
* A form to which parts are added after it has been encoded encodes to a multipart body that ends too early.
  The parts behind the first one marked as final fall into its epilogue, where a reader ignores them
  (`Multipart.LaterPartsAreLost`, `FormData.EncodeAppendEncode`). All parts are read exactly if no part but the
  last had been marked (`Multipart.FollowsGrammarUnlessEncodedBefore`).
* A form without parts encodes to nothing, which is not a multipart body (`Multipart.FollowsGrammar`).
* Writing a form to a stream that has no space drops bytes without an error; the bytes are all there exactly
  if it had space each time it was asked (`FormData.EncodeBothWays`, `FormData.LoseSilently`).

## Model

| member | source | states |
|---|---|---|
| `Varints.EncVarintFits` | Traveller/Pods/nanopb/pb_encode.c:608-628 | no 64-bit value needs more than the ten bytes of the encoder's buffer |
| `Varints.ReadVarint64Inverts` | Traveller/Pods/nanopb/pb_decode.c:255-275 | the 64-bit reader returns every encoded value and consumes just its bytes |
| `Varints.ReadVarint32Canonical` | Traveller/Pods/nanopb/pb_decode.c:187-247 | on the encoding of any 64-bit value the 32-bit reader fails, or returns the low half and consumes the same bytes; which of the two is decided by the value's bit groups |
| `Varints.ReadVarint32Promises` | Traveller/Pods/nanopb/pb_decode.c:212-226 | values below 2^32 and sign-extended negative 32-bit values are accepted; values below 2^63 only if they fit |
| `Varints.ReadVarint32Inverts` | Traveller/Pods/nanopb/pb_decode.c:249-253 | the 32-bit reader returns every encoded 32-bit value |
| `Varints.ReadVarint32Lossy` | Traveller/Pods/nanopb/pb_decode.c:206-235 | a concrete value that is neither of those and yet is accepted |
| `Varints.ReadVarint32Extends` | Traveller/Pods/nanopb/pb_decode.c:187-247 | bytes behind a varint do not influence how it is read |
| `Scalars.NumberRoundTrip` | Traveller/Pods/nanopb/pb_encode.c:769-850 | every integer, bool and fixed value of every width is decoded to itself, whatever follows |
| `Scalars.IntegerDecodersAccept` | Traveller/Pods/nanopb/pb_decode.c:1332-1415 | a decoder accepts a varint if and only if its value fits the field; signed fields of at most 32 bits first take its low half as signed |
| `Scalars.ReadNumberValid` | Traveller/Pods/nanopb/pb_decode.c:1321-1430 | whatever a number decoder accepts is in the range of its field |
| `Scalars.UnZigZagInverts` | Traveller/Pods/nanopb/pb_encode.c:630-639 | zigzag coding loses no 64-bit value |
| `WireFormat.TagValue` | Traveller/Pods/nanopb/pb_encode.c:668-707 | a tag is eight times the field number plus the documented number of the wire type; below 16 it is that single byte |
| `WireFormat.BoolAccepts` | Traveller/Pods/nanopb/pb_decode.c:1267-1270 | any 32-bit number but zero is decoded as true |
| `WireFormat.TooManyBytes` | Traveller/Pods/nanopb/pb_decode.c:255-275 | a varint that goes on after ten bytes is rejected |
| `WireFormat.MinusOne` | Traveller/Pods/nanopb/pb_encode.c:769-795 | a negative number is written with ten bytes |
| `Schema.DefaultsValid` | Traveller/Pods/nanopb/pb_decode.c:839-922 | what setting a message to its defaults leaves is within all limits |
| `Unset.DefaultsUnset` | Traveller/Pods/nanopb/pb_decode.c:839-922 | setting defaults leaves declared defaults, and without one zeros and empty buffers, no has flag, no elements and no selector, at every depth |
| `Unset.UnsetIsOne` | Traveller/Pods/nanopb/pb_decode.c:839-922 | this describes just one struct |
| `Unset.FreshIsUnset` | Traveller/Pods/nanopb/pb_decode.c:1078-1090 | pb_decode decodes into that struct |
| `Unset.EmptyInput` | Traveller/Pods/nanopb/pb_decode.c:928-1090 | no bytes are accepted if and only if no field is required, and then everything is unset |
| `Unset.KeptInMessage` | Traveller/Pods/nanopb/pb_decode.c:946-1024 | a cell of whose fields the input has no record keeps its contents |
| `Unset.AbsentIsUnset` | Traveller/Pods/nanopb/pb_decode.c:1078-1090 | so in a fresh struct it is unset, whatever else is decoded |
| `Encode.ValidIsEncodable` | Traveller/Pods/nanopb/pb_encode.c:528-550 | a struct within its limits, with full fixed-count arrays, can always be encoded |
| `Encode.ZeroCheckAgrees` | Traveller/Pods/nanopb/pb_encode.c:240-337 | the recursive zero check says default if and only if the encoder writes nothing and every selector that is set names a member |
| `Readback.ImplicitPresence` | Traveller/Pods/nanopb/pb_encode.c:240-337 | a field with implicit presence is not written if and only if its number is 0, its bytes are none, its string begins with NUL or its fixed length is 0 |
| `Readback.PresentIsWritten` | Traveller/Pods/nanopb/pb_encode.c:341-426 | any field has bytes exactly if it is required, flagged, not empty, selected or has something in it |
| `Readback.EncodableExactly` | Traveller/Pods/nanopb/pb_encode.c:147-235 | a struct can be encoded if and only if arrays keep to their counts and bytes to their buffers in all that is present |
| `Encode.DanglingSelector` | Traveller/Pods/nanopb/pb_encode.c:258-262 | a concrete struct for which they disagree: nothing is written, and yet it is not default |
| `Encode.WritesNothing` | Traveller/Pods/nanopb/pb_encode.c:341-426 | no bytes are written exactly if no field is |
| `WireFormat.EncodingHasRecords` | Traveller/Pods/nanopb/pb_encode.c:147-235 | a reader without descriptors finds one record for each field that is present, in the order of the fields: a block for a packable array, one for each element of any other |
| `WireFormat.Test1` | Traveller/Pods/nanopb/pb_encode.c:608-628 | a documented message, byte by byte: a number |
| `WireFormat.Test2` | Traveller/Pods/nanopb/pb_encode.c:709-715 | the same for a string |
| `WireFormat.Test3` | Traveller/Pods/nanopb/pb_encode.c:717-765 | for a submessage |
| `WireFormat.Test4` | Traveller/Pods/nanopb/pb_encode.c:147-205 | for a packed array |
| `Decode.DecMessage` | Traveller/Pods/nanopb/pb_decode.c:928-1076 | whatever the bytes, a struct that was within its limits still is after decoding into it, so counts never exceed their arrays |
| `Effects.SeenIfRecorded` | Traveller/Pods/nanopb/pb_decode.c:1015-1020 | a required field counts as seen exactly if the input has a record of it |
| `Effects.MissingIsRejected` | Traveller/Pods/nanopb/pb_decode.c:1033-1073 | a message without a record of one of the first 64 required fields is rejected |
| `Effects.AcceptedIfComplete` | Traveller/Pods/nanopb/pb_decode.c:1026-1073 | without fixed-count arrays it is accepted if and only if the records are in order and none of these is missing |
| `Effects.FixedIsFull` | Traveller/Pods/nanopb/pb_decode.c:994-1031 | a fixed-count array of which there was any record has all its elements when a message is accepted |
| `Effects.ZeroTagEnds` | Traveller/Pods/nanopb/pb_decode.c:946-958 | a zero tag ends a message, whatever follows |
| `Effects.CutOff` | Traveller/Pods/nanopb/pb_decode.c:946-1024 | a message that is cut off inside a record is rejected |
| `Effects.UnknownWireType` | Traveller/Pods/nanopb/pb_decode.c:321-331 | a record of an unknown field with a wire type that does not exist is rejected |
| `Decode.DecField` | Traveller/Pods/nanopb/pb_decode.c:406-483 | a decoded record leaves its cell within limits, selects its union member and consumes at least a byte |
| `Effects.NumberRecord` | Traveller/Pods/nanopb/pb_decode.c:406-483 | a number replaces the one before and sets the has flag, selects its union member, or is appended as long as there is room |
| `Effects.FixedNumberRecord` | Traveller/Pods/nanopb/pb_decode.c:994-1013 | the first number of another fixed-count array starts it afresh, and is rejected if the last one is incomplete |
| `Effects.CharsRecord` | Traveller/Pods/nanopb/pb_decode.c:1434-1551 | bytes and strings are taken exactly if they fit with their size or NUL, fixed-length bytes if their length is right or they are empty, which zeroes the buffer |
| `Effects.SubmessageRecord` | Traveller/Pods/nanopb/pb_decode.c:458-483 | a submessage is decoded into the one that is there, in a union if its member is selected; in any other and in an array it is decoded into a fresh struct |
| `Effects.UnionIsDecoded` | Traveller/Pods/nanopb/pb_decode.c:466-478 | so a union is for any input |
| `Effects.UnionKeepsRest` | Traveller/Pods/nanopb/pb_decode.c:466-478 | cells of a selected submessage of whose fields the record has none keep their contents |
| `Decode.FindField` | Traveller/Pods/nanopb/pb_common.c:78-95 | a field is found if and only if some descriptor has the tag |
| `Decode.UpdateValid` | Traveller/Pods/nanopb/pb_decode.c:471-478 | replacing the cell of one field, a union included, keeps the whole struct valid |
| `Merge.MergeCellwise` | Traveller/Pods/nanopb/pb_decode.c:406-483 | merging a struct field by field is merging each cell by the rule of the one field that is written from it |
| `Merge.NormalizeValid` | Traveller/Pods/nanopb/pb_decode.c:839-922 | the normal form of a struct is within its limits |
| `Merge.MergeIntoDefaults` | Traveller/Pods/nanopb/pb_decode.c:1078-1090 | merging a struct into the defaults gives its normal form |
| `RoundTrip.ReadTagInverts` | Traveller/Pods/nanopb/pb_decode.c:298-319 | every tag and wire type that is written is read back |
| `RoundTrip.ReadDelimitedInverts` | Traveller/Pods/nanopb/pb_decode.c:372-385 | every body with a length below 2^32 is read back, and nothing behind it |
| `RoundTrip.ReadDelimitedTooLong` | Traveller/Pods/nanopb/pb_decode.c:372-385 | every longer body is rejected |
| `RoundTrip.ReadCharsInverts` | Traveller/Pods/nanopb/pb_decode.c:1434-1551 | bytes, strings and fixed-length bytes within their buffers are read back |
| `RoundTrip.ReadPackedInverts` | Traveller/Pods/nanopb/pb_decode.c:424-451 | a packed block appends its elements, and fails exactly if they do not all fit |
| `RoundTrip.DecValueInverts` | Traveller/Pods/nanopb/pb_decode.c:1506-1528 | decoding an encoded value onto an old one is merging; a submessage merges into the old submessage |
| `RoundTrip.DecMergesFrom` | Traveller/Pods/nanopb/pb_decode.c:946-1024 | the record loop on the encoding of the fields from the i-th on merges them one after another, notes all their required fields and leaves fixed-count arrays full |
| `RoundTrip.DecMergesMessage` | Traveller/Pods/nanopb/pb_decode.c:928-1076 | decoding the encoding of m into c gives the merge of m into c; it fails exactly if the merge does or a length prefix exceeds 32 bits |
| `RoundTrip.RoundTrip` | Traveller/Pods/nanopb/pb_decode.c:1078-1090 | decoding what was encoded gives the struct in normal form if and only if every length prefix fits into 32 bits, and is rejected otherwise |
| `Readback.ReadsBack` | Traveller/Pods/nanopb/pb_decode.c:1078-1090 | every number, buffer, flag, count and selector of a struct comes back, strings up to their first NUL, and what is not present comes back unset, at every depth |
| `Readback.ImplicitReadsSame` | Traveller/Pods/nanopb/pb_decode.c:1078-1090 | with implicit presence and no other default than zero what was not written comes back the same, too |
| `RoundTrip.TooLongToRead` | Traveller/Pods/nanopb/pb_decode.c:372-385 | a concrete struct that can be encoded, and whose encoding is rejected |
| `RoundTrip.SmallIsShort` | Traveller/Pods/nanopb/pb_encode.c:717-765 | in an encoding below 4 GB every length prefix does |
| `NormalForm.CellNormalized` | Traveller/Pods/nanopb/pb_decode.c:406-483 | what each field finds after a round trip: its value in normal form if it was written, nothing if it is a union member that was not, else its default |
| `NormalForm.AllDefaultNormal` | Traveller/Pods/nanopb/pb_encode.c:240-337 | if everything in a normal form is default, then it is the default struct |
| `NormalForm.NormalizeTwice` | Traveller/Pods/nanopb/pb_decode.c:839-922 | the normal form of a normal form is itself if and only if, at every depth, each absent field with implicit presence has a default that is zero or in normal form |
| `NormalForm.NormalDefaultsSettle` | Traveller/Pods/nanopb/pb_decode.c:839-922 | so it is for every struct if no default holds anything behind a NUL |
| `NormalForm.DefaultIsCut` | Traveller/Pods/nanopb/pb_decode.c:1471-1504 | a concrete struct with a default that holds something behind a NUL: it changes at the second round trip, too |
| `Varints.EncVarintPrefixFree` | Traveller/Pods/nanopb/pb_encode.c:608-628 | no varint is the beginning of another |
| `Reencode.FieldsSplit` | Traveller/Pods/nanopb/pb_encode.c:528-550 | if a struct and its normal form have equal encodings, then each field is encoded to equal bytes |
| `Reencode.SameIfStable` | Traveller/Pods/nanopb/pb_encode.c:528-550 | a struct and its normal form have equal encodings if and only if, at every depth, each field with implicit presence is zero before and after or neither |
| `Reencode.UsuallyStable` | Traveller/Pods/nanopb/pb_encode.c:240-337 | so it is if implicit fields have no default but zero and selectors name members, at every depth |
| `Reencode.NormalizeSame` | Traveller/Pods/nanopb/pb_encode.c:528-550 | the normal form of a struct has the same encoding and the same answer of the zero check, if implicit fields have no default but zero and selectors name members, at every depth |
| `Reencode.EncodesTheSame` | Traveller/Pods/nanopb/pb_decode.c:1078-1090 | if all length prefixes fit, encoding, decoding and encoding again gives the same bytes if and only if the struct is stable in this sense; if they do not, nothing is decoded |
| `Reencode.ZeroBecomesDefault` | Traveller/Pods/nanopb/pb_encode.c:355-359 | a concrete struct with a default other than zero: its encoding is empty, and that of what is decoded from it is not |
| `Reencode.SelectorIsLost` | Traveller/Pods/nanopb/pb_encode.c:258-262 | a concrete struct with a selector that names no member: its encoding is not empty, and that of what is decoded from it is |
| `Reencode.DecodedIsEncodable` | Traveller/Pods/nanopb/pb_decode.c:1078-1090 | whatever bytes a struct without fixed-count arrays was decoded from, it can be encoded, and comes back in normal form if all length prefixes fit |
| `Records.LoopOnConcatenation` | Traveller/Pods/nanopb/pb_decode.c:946-1024 | the loop on a followed by b is the loop on a and then on b, unless a is incomplete or ended by a zero tag |
| `Records.MergeHomomorphism` | Traveller/Pods/nanopb/pb_decode.c:928-1076 | without required and fixed-count fields, decoding a + b is decoding a and then b into the same struct |
| `Records.ConcatenationMerges` | Traveller/Pods/nanopb/pb_decode.c:928-1076 | concatenated encodings of two structs decode to the merge of both |
| `Records.UnknownFieldsTransparent` | Traveller/Pods/nanopb/pb_decode.c:960-989 | a whole record of an unknown field, inserted between records, changes neither the struct nor success |
| `Records.SkipsValue` | Traveller/Pods/nanopb/pb_decode.c:321-331 | for every value written, skipping by the wire type of its tag consumes exactly its payload |
| `Records.ForeignMessageSkipped` | Traveller/Pods/nanopb/pb_decode.c:960-989 | a decoder that has none of the fields of a message leaves its struct as it was |
| `Records.StepIsLocal` | Traveller/Pods/nanopb/pb_decode.c:946-1024 | what a record does depends on, and changes, only the cell of its own field |
| `Records.RecordsCommute` | Traveller/Pods/nanopb/pb_decode.c:946-1024 | two adjacent records of fields that do not share a cell can be swapped |
| `Records.SwapInMessage` | Traveller/Pods/nanopb/pb_decode.c:928-1076 | so can they anywhere in a message, without changing the struct or success |
| `Records.WholeIsComplete` | Traveller/Pods/nanopb/pb_decode.c:946-1024 | a record whose bytes have the wire type and the extent of its field is decoded completely or rejected, whatever was decoded before |
| `Records.WrittenIsWhole` | Traveller/Pods/nanopb/pb_encode.c:398-424 | every record that the encoder writes for a value is of this kind |
| `Records.SwapWholeRecords` | Traveller/Pods/nanopb/pb_decode.c:928-1076 | two such records of fields that do not share a cell can be swapped, behind any such records and before any bytes |
| `Records.PackedEqualsUnpacked` | Traveller/Pods/nanopb/pb_decode.c:424-464 | any mixture of packed blocks and single records appends the same elements; it fails exactly if the old count and the new elements exceed the array |
| `Input.IStream.Read` | Traveller/Pods/nanopb/pb_decode.c:102-139 | reads exactly count bytes or fails untouched; position plus bytes left is constant |
| `Input.IStream.BufRead` | Traveller/Pods/nanopb/pb_decode.c:87-100 | copies exactly the bytes at the position, or passes over them without a destination |
| `Input.IStream.ReadByte` | Traveller/Pods/nanopb/pb_decode.c:141-157 | takes one byte within the limit, or fails with the limit used up |
| `Input.IStream.DecodeVarint32Eof` | Traveller/Pods/nanopb/pb_decode.c:187-247 | the bit-shifting loop is the 32-bit reader; end of input is reported exactly if there was no byte |
| `Input.IStream.DecodeVarint` | Traveller/Pods/nanopb/pb_decode.c:255-275 | so is the 64-bit loop the 64-bit reader |
| `Input.IStream.DecodeSvarint` | Traveller/Pods/nanopb/pb_decode.c:1272-1284 | undoes zigzag coding on what the varint reader returns |
| `Input.IStream.DecodeFixed32` | Traveller/Pods/nanopb/pb_decode.c:1286-1299 | four bytes in little-endian order, or failure |
| `Input.IStream.DecodeFixed64` | Traveller/Pods/nanopb/pb_decode.c:1301-1319 | eight bytes in little-endian order, or failure |
| `Input.IStream.DecodeTag` | Traveller/Pods/nanopb/pb_decode.c:298-319 | splits a tag, and treats a zero tag like the end |
| `Input.IStream.SkipVarint` | Traveller/Pods/nanopb/pb_decode.c:278-287 | passes over a varint of any length, or fails at the end of the input |
| `Input.IStream.SkipString` | Traveller/Pods/nanopb/pb_decode.c:289-296 | passes over exactly a length and its body |
| `Input.IStream.SkipField` | Traveller/Pods/nanopb/pb_decode.c:321-331 | skips exactly the payload of the wire type |
| `Input.IStream.MakeStringSubstream` | Traveller/Pods/nanopb/pb_decode.c:372-385 | the substream is exactly the body; the parent keeps what is behind it |
| `Input.IStream.CloseStringSubstream` | Traveller/Pods/nanopb/pb_decode.c:387-400 | leaves the parent right behind the body even if the body was not read to its end |
| `Iterator.CellsAreRegions` | Traveller/Pods/nanopb/pb_common.c:20-76 | the addresses computed for two fields are equal if they share a cell, and their regions are disjoint otherwise |
| `Iterator.SizeIsRelative` | Traveller/Pods/nanopb/pb_encode.c:246-246 | the address of the count, selector or has flag that the encoder computes from a field alone is the one that the iterator keeps, union members included |
| `Iterator.FieldIter.Begin` | Traveller/Pods/nanopb/pb_common.c:8-18 | starts the scan, and says whether there is any field |
| `Iterator.FieldIter.Next` | Traveller/Pods/nanopb/pb_common.c:20-76 | after any step or wrap, address, count address and required index are those of a fresh scan to the same field |
| `Iterator.FieldIter.Find` | Traveller/Pods/nanopb/pb_common.c:78-95 | from any position finds a field if and only if there is one, with distinct tags the one a linear search from the first field finds, and otherwise comes back to where it was |
| `Bitmap.OrSetsBit` | Traveller/Pods/nanopb/pb_decode.c:1015-1020 | the or of a word with one bit sets that bit and no other |
| `Bitmap.NoteSeen` | Traveller/Pods/nanopb/pb_decode.c:1015-1020 | noting a required field sets its bit in the right word and stays in bounds |
| `Bitmap.LowBits` | Traveller/Pods/nanopb/pb_decode.c:1054-1070 | a word with no higher bits equals the mask of n ones exactly if its first n bits are set |
| `Bitmap.CheckSeen` | Traveller/Pods/nanopb/pb_decode.c:1052-1072 | comparing whole words and the rest accepts exactly if the first count bits are set |
| `Bitmap.TracksAll` | Traveller/Pods/nanopb/pb_decode.c:1033-1073 | that is the case exactly if each of the first 64 required fields was seen |
| `Decoder.MessageSetToDefaults` | Traveller/Pods/nanopb/pb_decode.c:839-922 | overwrites any struct of the right layout with the defaults |
| `Decoder.FieldSetToDefault` | Traveller/Pods/nanopb/pb_decode.c:839-909 | overwrites just the cell of one field, which is unset then |
| `Decoder.DecBool` | Traveller/Pods/nanopb/pb_decode.c:1267-1270 | any varint but zero is true |
| `Decoder.DecVarint` | Traveller/Pods/nanopb/pb_decode.c:1332-1367 | the casts and the comparison after them accept exactly what fits |
| `Decoder.DecUvarint` | Traveller/Pods/nanopb/pb_decode.c:1369-1391 | accepts exactly the unsigned values that fit the field |
| `Decoder.DecSvarint` | Traveller/Pods/nanopb/pb_decode.c:1393-1415 | accepts exactly the zigzag values that fit the field |
| `Decoder.DecNumber` | Traveller/Pods/nanopb/pb_decode.c:68-81 | each packable type is read by its own decoder, and moves the stream only within its limit |
| `Decoder.DecBytes` | Traveller/Pods/nanopb/pb_decode.c:1434-1469 | takes exactly the buffers that fit, sizes that overflow included |
| `Decoder.DecString` | Traveller/Pods/nanopb/pb_decode.c:1471-1504 | takes exactly the strings that leave room for their NUL |
| `Decoder.DecFixedLengthBytes` | Traveller/Pods/nanopb/pb_decode.c:1530-1551 | takes exactly the right length, or an empty value that zeroes the buffer |
| `Decoder.DecodeValue` | Traveller/Pods/nanopb/pb_decode.c:68-81 | each type is decoded by its own decoder; only submessages look at the old value |
| `Decoder.DecodeSubmessage` | Traveller/Pods/nanopb/pb_decode.c:1506-1528 | decodes the nested message within its length, and leaves the parent right behind it |
| `Decoder.DecodePacked` | Traveller/Pods/nanopb/pb_decode.c:424-451 | the loop over a packed block fills the array in place up to its size, and fails if bytes are left over |
| `Decoder.DecodeRepeated` | Traveller/Pods/nanopb/pb_decode.c:424-464 | a packed block or a single record is appended in place, within the size of the array |
| `Decoder.DecodeStaticField` | Traveller/Pods/nanopb/pb_decode.c:406-483 | updates in place just the cell of the field, as the decoding function says; a submessage in a union is decoded into the selected one, or into a fresh struct if another member or none was selected |
| `Decoder.CountRequired` | Traveller/Pods/nanopb/pb_decode.c:1033-1047 | from wherever the iterator stopped, running it to the wrap counts all required fields |
| `Decoder.NoteField` | Traveller/Pods/nanopb/pb_decode.c:994-1020 | restarts or continues a fixed-count array and notes a required field, or finds the previous array incomplete |
| `Decoder.DecodeKnownField` | Traveller/Pods/nanopb/pb_decode.c:991-1024 | the bookkeeping and the decoder together are one step of the record loop |
| `Decoder.DecodeRecord` | Traveller/Pods/nanopb/pb_decode.c:960-1024 | finds the field from wherever the iterator is and decodes it, or skips the record |
| `Decoder.CheckFinished` | Traveller/Pods/nanopb/pb_decode.c:1026-1073 | accepts exactly if the last fixed-count array is complete and every one of the first 64 required fields was seen |
| `Decoder.DecodeLoop` | Traveller/Pods/nanopb/pb_decode.c:946-1024 | the record loop, whose iterator goes on from where it was, has the same result as one that searches afresh for each record |
| `Decoder.DecodeNoinit` | Traveller/Pods/nanopb/pb_decode.c:928-1076 | succeeds exactly if the decoding function does, with the same struct, and has then used up the stream's limit unless a zero tag ended it |
| `Decoder.DecodeInto` | Traveller/Pods/nanopb/pb_decode.c:1078-1090 | pb_decode gives the same result whatever the struct contained |
| `Output.OStream.Write` | Traveller/Pods/nanopb/pb_encode.c:103-124 | succeeds exactly if there is room, writes just the bytes at the position and nothing beyond its maximal size; a sizing stream only counts |
| `Output.OStream.BufWrite` | Traveller/Pods/nanopb/pb_encode.c:74-84 | copies the bytes to the position and leaves all other memory alone |
| `Output.RanBoth` | Traveller/Pods/nanopb/pb_encode.c:103-124 | two runs of writes in succession write the concatenation, with one verdict for both |
| `Encoder.EncodeVarint` | Traveller/Pods/nanopb/pb_encode.c:608-628 | the buffer-filling loop writes the varint |
| `Encoder.EncodeSvarint` | Traveller/Pods/nanopb/pb_encode.c:630-639 | the shift and complement on unsigned numbers is zigzag coding |
| `Encoder.EncodeFixed32` | Traveller/Pods/nanopb/pb_encode.c:641-650 | writes the four bytes in little-endian order |
| `Encoder.EncodeFixed64` | Traveller/Pods/nanopb/pb_encode.c:653-666 | writes the eight bytes in little-endian order |
| `Encoder.EncodeTagForField` | Traveller/Pods/nanopb/pb_encode.c:675-707 | writes the tag with the wire type that the decoder will skip or read the value by |
| `Encoder.EncodeString` | Traveller/Pods/nanopb/pb_encode.c:709-715 | a length and its bytes are written as one, and success means both |
| `Encoder.CheckAllDefault` | Traveller/Pods/nanopb/pb_encode.c:294-308 | the loop over a submessage finds out whether all its fields are default |
| `Encoder.CheckProto3DefaultValue` | Traveller/Pods/nanopb/pb_encode.c:240-337 | the recursive check over the iterator finds out whether there is something in a field: a flag, an element, a selector, a number other than 0, a byte |
| `Encoder.EncodeCString` | Traveller/Pods/nanopb/pb_encode.c:875-899 | writes up to the first NUL and never beyond the buffer |
| `Encoder.EncodeBytes` | Traveller/Pods/nanopb/pb_encode.c:852-873 | refuses exactly the sizes that exceed the field |
| `Encoder.EncodeNumber` | Traveller/Pods/nanopb/pb_encode.c:769-850 | each integer width is widened and written as its number encoding |
| `Encoder.EncodeValue` | Traveller/Pods/nanopb/pb_encode.c:55-68 | each type is written by its own encoder, succeeding exactly if the value is encodable and fits |
| `Encoder.EncodeSubmessage` | Traveller/Pods/nanopb/pb_encode.c:717-765 | the length prefix from the dry run equals the body, at every depth; succeeds exactly if the submessage can be encoded and fits |
| `Encoder.EncodeBody` | Traveller/Pods/nanopb/pb_encode.c:731-765 | writing through a substream of the computed size is writing to the stream; the error "submsg size changed" is out of reach |
| `Encoder.RanThroughSubstream` | Traveller/Pods/nanopb/pb_encode.c:741-764 | a substream limited to the body's size cannot fail for want of room, and fills it exactly |
| `Encoder.PackedSize` | Traveller/Pods/nanopb/pb_encode.c:167-190 | the size computed for a packed array, by multiplication or by a dry run, is that of its data |
| `Encoder.EncodePackedItems` | Traveller/Pods/nanopb/pb_encode.c:176-203 | the loop writes, or counts, the elements back to back |
| `Encoder.EncodePacked` | Traveller/Pods/nanopb/pb_encode.c:164-205 | the length prefix of a packed array equals its data |
| `Encoder.EncodeItems` | Traveller/Pods/nanopb/pb_encode.c:207-232 | the loop writes one record for each element, up to the first that cannot be encoded |
| `Encoder.EncodeArray` | Traveller/Pods/nanopb/pb_encode.c:147-235 | succeeds exactly if the count and all elements are within limits and there is room |
| `Encoder.EncodeBasicField` | Traveller/Pods/nanopb/pb_encode.c:341-426 | writes a field exactly if it is present, selected or not default |
| `Encoder.PbEncode` | Traveller/Pods/nanopb/pb_encode.c:528-550 | writes the whole message or fails; fails exactly if the struct cannot be encoded or there is no room; never touches memory outside its limits |
| `Encoder.GetEncodedSize` | Traveller/Pods/nanopb/pb_encode.c:567-576 | returns exactly the number of bytes of the encoding, and succeeds exactly if there is one |
| `Codec.EncodeToBuffer` | Traveller/Pods/nanopb/pb_encode.c:86-101 | encoding into a buffer succeeds if and only if its size is at least that, and leaves the rest of memory alone |
| `Codec.EncodeExactly` | Traveller/Pods/nanopb/pb_encode.c:567-576 | a buffer of the computed size is always enough and is filled completely |
| `Codec.EncodeAndDecode` | Traveller/Pods/nanopb/pb_decode.c:1078-1090 | encoding a struct and decoding the buffer into arbitrary memory gives back its normal form and so its values, under the exact condition on lengths |
| `Downloads.IndexOf` | Traveller/Pods/AlamofireImage/Source/ImageDownloader.swift:479-483 | the index found is that of the first operation with the receipt, if any |
| `Downloads.FirstFilter` | Traveller/Pods/AlamofireImage/Source/ImageDownloader.swift:360-373 | of several filters with one identifier the first is used for all |
| `DownloadSafety.StartFirstEffect` | Traveller/Pods/AlamofireImage/Source/ImageDownloader.swift:531-536 | starting the next request drops those no longer suspended and starts the first that is, if any |
| `DownloadSafety.StepStructured` | Traveller/Pods/AlamofireImage/Source/ImageDownloader.swift:279-415 | every step keeps this: a suspended request is queued once and owns the live handler of its URL, and a closure that is about to remove a handler finds its own |
| `DownloadSafety.StepCounts` | Traveller/Pods/AlamofireImage/Source/ImageDownloader.swift:527-577 | every step keeps the counter between 0 and the maximum and at most the number of requests holding a slot; while a request waits, free slots number at most the pending start-next steps |
| `DownloadSafety.StepConserves` | Traveller/Pods/AlamofireImage/Source/ImageDownloader.swift:474-525 | every step keeps the multiset of completions waiting or called equal to those ever registered |
| `DownloadSafety.StepReceipts` | Traveller/Pods/AlamofireImage/Source/ImageDownloader.swift:293-297 | every step keeps each operation in the handler of the request its receipt names |
| `DownloadSafety.ReachableInvariant` | Traveller/Pods/AlamofireImage/Source/ImageDownloader.swift:279-577 | all this holds in every state any interleaving reaches |
| `DownloadSafety.ExactlyOnce` | Traveller/Pods/AlamofireImage/Source/ImageDownloader.swift:350-394 | in every reachable state each completion passed to download is either in exactly one place of one live handler or has been called exactly once |
| `DownloadSafety.StaleResponseTakesNothing` | Traveller/Pods/AlamofireImage/Source/ImageDownloader.swift:350-356 | a response removes only the handler of its own request, although checking and removing are separate steps, and answers only receipts for that request |
| `DownloadSafety.NoStall` | Traveller/Pods/AlamofireImage/Source/ImageDownloader.swift:527-548 | with a maximum of at least 1, a waiting request always has another that holds a slot or is about to start the next |
| `DownloadSafety.StepUsesUp` | Traveller/Pods/AlamofireImage/Source/ImageDownloader.swift:345-348 | each answer or closure step brings its request closer to its end, and cancelling undoes none |
| `DownloadSafety.QuietIsDone` | Traveller/Pods/AlamofireImage/Source/ImageDownloader.swift:345-396 | when no step is outstanding, every request has been answered, every completion called, no handler is left and the counter is 0 |
| `DownloadSafety.Settles` | Traveller/Pods/AlamofireImage/Source/ImageDownloader.swift:345-396 | from every reachable state a bounded number of answers and closure steps leads there |
| `DownloadPromises.StartsInOrder` | Traveller/Pods/AlamofireImage/Source/ImageDownloader.swift:527-562 | in every reachable state the request that is started next is the oldest one waiting, or with last-in first-out the newest |
| `DownloadPromises.CachedAsAnswered` | Traveller/Pods/AlamofireImage/Source/ImageDownloader.swift:362-390 | in every reachable state the image cache has received exactly the images that completions were called with, in order, under the URL of their request and the identifier of their filter |
| `DownloadPromises.CancelledIsCalled` | Traveller/Pods/AlamofireImage/Source/ImageDownloader.swift:474-497 | in every reachable state, cancelling with the receipt of a completion, if no other has its identifier, leads to its having been called: right then with the error for cancelled requests if and only if it had not been called before |
| `DownloadPromises.CancelAtOnce` | Traveller/Pods/AlamofireImage/Source/ImageDownloader.swift:470-497 | a concrete run in which a completion is called because it was cancelled |
| `DownloadPromises.LastOneCancels` | Traveller/Pods/AlamofireImage/Source/ImageDownloader.swift:468-501 | in every reachable state, cancelling the last completion that waits for a pending request cancels the request, and cancelling any other leaves it and the rest of its operations |
| `DownloadPromises.StartedIsNotCancelled` | Traveller/Pods/AlamofireImage/Source/ImageDownloader.swift:468-501 | cancelling with a receipt never cancels a request that has been started |
| `DownloadHistory.CalledAsDue` | Traveller/Pods/AlamofireImage/Source/ImageDownloader.swift:279-503 | in every run each completion is called with what is due to its call: the cached image it came with, the image answered for its URL under a filter with its identifier, the failure answered for its URL, or a cancellation with its receipt |
| `DownloadHistory.AnsweredInOrder` | Traveller/Pods/AlamofireImage/Source/ImageDownloader.swift:354-394 | in every run the completions that wait for one request are called in the order of the calls |
| `DownloadLimit.StepTight` | Traveller/Pods/AlamofireImage/Source/ImageDownloader.swift:527-577 | every step that does not cancel a waiting request keeps the counter equal to the number of requests that hold a slot, and each of those still to come will have taken one |
| `DownloadLimit.LimitKept` | Traveller/Pods/AlamofireImage/Source/ImageDownloader.swift:185-185 | in runs where no request is cancelled before it is started, no more than the maximum of requests hold a slot |
| `DownloadLimit.LimitExact` | Traveller/Pods/AlamofireImage/Source/ImageDownloader.swift:527-577 | with a maximum of at least 1, more requests than that can come to hold a slot without another such cancellation if and only if now the counter is below their number or a request that took no slot will give one back |
| `DownloadLimit.LimitBroken` | Traveller/Pods/AlamofireImage/Source/ImageDownloader.swift:540-546 | a concrete run with such a cancellation in which two downloads run under a maximum of one |
| `Downloader.ImageDownloader.Download` | Traveller/Pods/AlamofireImage/Source/ImageDownloader.swift:279-415 | merges into the live handler, answers from the cache, or creates a request and starts or queues it: exactly the step of the state machine |
| `Downloader.ImageDownloader.Start` | Traveller/Pods/AlamofireImage/Source/ImageDownloader.swift:550-553 | a started request takes one slot |
| `Downloader.ImageDownloader.Enqueue` | Traveller/Pods/AlamofireImage/Source/ImageDownloader.swift:555-562 | a request waits behind the others, or before them with last-in first-out |
| `Downloader.ImageDownloader.CancelRequest` | Traveller/Pods/AlamofireImage/Source/ImageDownloader.swift:474-503 | takes out one operation and cancels a waiting request that nobody waits for any more |
| `Downloader.ImageDownloader.CancelOperation` | Traveller/Pods/AlamofireImage/Source/ImageDownloader.swift:479-497 | one operation leaves its handler and is told of the cancellation; the others keep their order |
| `Downloader.FirstIndex` | Traveller/Pods/AlamofireImage/Source/ImageDownloader.swift:479-483 | the loop finds the first operation with the receipt |
| `Downloader.ImageDownloader.FetchResponseHandler` | Traveller/Pods/AlamofireImage/Source/ImageDownloader.swift:350-352 | goes on to remove the handler only if it is its own |
| `Downloader.ImageDownloader.RemoveResponseHandler` | Traveller/Pods/AlamofireImage/Source/ImageDownloader.swift:354-394 | removes whatever handler there is for the URL, answers its operations in order, and adds each image to the cache |
| `Downloader.ImageDownloader.SafelyRemoveResponseHandler` | Traveller/Pods/AlamofireImage/Source/ImageDownloader.swift:517-525 | takes the handler of one URL and leaves those of all others |
| `Downloader.ImageDownloader.SafelyDecrementActiveRequestCount` | Traveller/Pods/AlamofireImage/Source/ImageDownloader.swift:540-546 | never makes the counter negative |
| `Downloader.ImageDownloader.SafelyStartNextRequestIfNecessary` | Traveller/Pods/AlamofireImage/Source/ImageDownloader.swift:527-538 | the dequeuing loop starts at most one request, and none above the limit |
| `Downloader.ImageDownloader.StartFirstSuspended` | Traveller/Pods/AlamofireImage/Source/ImageDownloader.swift:531-536 | the loop drops requests up to the first that is still suspended, and starts it |
| `Downloader.AnswerOperations` | Traveller/Pods/AlamofireImage/Source/ImageDownloader.swift:358-394 | each operation gets the image for its filter, where a filter runs once for each identifier, and each of these images goes to the cache under its identifier; a failure goes to all, and nothing to the cache |
| `Downloader.FilterImage` | Traveller/Pods/AlamofireImage/Source/ImageDownloader.swift:361-373 | the dictionary always holds the image of the first filter of each identifier met so far |
| `Caching.PurgeIsLeast` | Traveller/Pods/AlamofireImage/Source/ImageCache.swift:200-226 | a purge that fires leaves at most the preferred usage, and a purge of one image less would have left more |
| `Caching.PurgesLeastRecent` | Traveller/Pods/AlamofireImage/Source/ImageCache.swift:206-211 | no image is purged that was accessed later than one that stays |
| `Caching.StepAccounted` | Traveller/Pods/AlamofireImage/Source/ImageCache.swift:188-301 | every operation keeps the counter equal to the sum of the sizes stored, and within the capacity unless a purge is outstanding |
| `Caching.AlwaysAccounted` | Traveller/Pods/AlamofireImage/Source/ImageCache.swift:188-331 | so it is in every interleaving of additions, purges, removals and accesses, with any clock |
| `CacheHistory.StoredAsAdded` | Traveller/Pods/AlamofireImage/Source/ImageCache.swift:188-331 | in every run each stored image is the one last added with its identifier and not removed since, with its size and the date of the last call that added or read it; an added image is stored until a call removes it or a purge runs |
| `CacheHistory.PurgesLeastRecentlyUsed` | Traveller/Pods/AlamofireImage/Source/ImageCache.swift:204-222 | in every run a purge removes no image that was added or read later than one it keeps |
| `CacheHistory.PurgesOnlyIfFull` | Traveller/Pods/AlamofireImage/Source/ImageCache.swift:200-202 | a purge removes nothing unless the images exceed the capacity |
| `Caching.SumPart` | Traveller/Pods/AlamofireImage/Source/ImageCache.swift:249-263 | the images with a prefix and the others together have all the bytes |
| `ImageCache.AutoPurgingImageCache.Add` | Traveller/Pods/AlamofireImage/Source/ImageCache.swift:188-198 | replaces an image and its bytes; the counter does not underflow |
| `ImageCache.AutoPurgingImageCache.Purge` | Traveller/Pods/AlamofireImage/Source/ImageCache.swift:200-226 | sorting and removing one by one is the purge along some order by date |
| `ImageCache.AutoPurgingImageCache.SortedByDate` | Traveller/Pods/AlamofireImage/Source/ImageCache.swift:204-211 | each stored image occurs once, in the order of dates |
| `ImageCache.AutoPurgingImageCache.PurgeImages` | Traveller/Pods/AlamofireImage/Source/ImageCache.swift:213-222 | the loop removes just as many images as are needed, and adds up their bytes |
| `ImageCache.AutoPurgingImageCache.RemoveImages` | Traveller/Pods/AlamofireImage/Source/ImageCache.swift:249-263 | the loop over the keys removes exactly the images with the prefix, and reports whether there were any |
| `ImageCache.AutoPurgingImageCache.RemoveImage` | Traveller/Pods/AlamofireImage/Source/ImageCache.swift:271-282 | removes one image with its bytes, and reports whether there was one |
| `ImageCache.AutoPurgingImageCache.RemoveAllImages` | Traveller/Pods/AlamofireImage/Source/ImageCache.swift:288-301 | leaves an empty cache with a counter of zero |
| `ImageCache.AutoPurgingImageCache.Image` | Traveller/Pods/AlamofireImage/Source/ImageCache.swift:321-331 | finds an image exactly if it is stored, renews its access date and changes nothing else |
| `Multipart.FollowsGrammar` | Traveller/Pods/Alamofire/Source/MultipartFormData.swift:348-364 | the first encoding of a form with parts is a multipart body of section 5.1.1 of RFC 2046 with the parts in order; that of a form without parts is none |
| `Multipart.FirstDelimiter` | Traveller/Pods/Alamofire/Source/MultipartFormData.swift:62-75 | the first delimiter behind a part that contains none is where the part ends |
| `Multipart.ReadsBody` | Traveller/Pods/Alamofire/Source/MultipartFormData.swift:348-364 | a multipart body whose parts do not contain the delimiter is read back part by part, whatever its epilogue |
| `Multipart.ReadsBack` | Traveller/Pods/Alamofire/Source/MultipartFormData.swift:348-364 | a form whose parts do not contain the delimiter is read back from its encoding, part by part |
| `PartHeaders.ReadsPart` | Traveller/Pods/Alamofire/Source/MultipartFormData.swift:421-430 | a reader that cuts a part into lines and each line at its first colon and space gets back all headers and the body |
| `PartHeaders.ReadsForm` | Traveller/Pods/Alamofire/Source/MultipartFormData.swift:348-364 | a form is read back from its encoding: the same parts with the same headers and bodies |
| `PartHeaders.TwoParts` | Traveller/Pods/Alamofire/Source/MultipartFormData.swift:62-75 | the encoding of a form of two parts, byte by byte |
| `Multipart.FollowsGrammarUnlessEncodedBefore` | Traveller/Pods/Alamofire/Source/MultipartFormData.swift:355-356 | because the flags stay set, an encoding is a multipart body of all its parts if and only if no part but the last has the final one |
| `Multipart.LaterPartsInEpilogue` | Traveller/Pods/Alamofire/Source/MultipartFormData.swift:355-363 | an encoding is a multipart body of the parts up to the first with the final flag, followed by an epilogue that holds the others |
| `Multipart.LaterPartsAreLost` | Traveller/Pods/Alamofire/Source/MultipartFormData.swift:355-363 | a reader gets exactly those parts; all of them if and only if no part but the last has the flag |
| `FormData.OutputStream.WriteBuffer` | Traveller/Pods/Alamofire/Source/MultipartFormData.swift:517-533 | for every pattern of partial writes all bytes arrive in order, unless the stream had no space when asked: then some are missing |
| `FormData.BodyPart.EncodeHeaders` | Traveller/Pods/Alamofire/Source/MultipartFormData.swift:421-430 | the loop writes a line for each header and an empty one, from which the headers can be read |
| `FormData.BodyPart.EncodeBodyStream` | Traveller/Pods/Alamofire/Source/MultipartFormData.swift:432-455 | for every pattern of partial reads the result is all that is left of the stream; fails exactly if the stream does |
| `FormData.BodyPart.WriteBodyStream` | Traveller/Pods/Alamofire/Source/MultipartFormData.swift:476-500 | copies all that is left of the stream, for every pattern of partial reads and writes |
| `FormData.MultipartFormData.Append` | Traveller/Pods/Alamofire/Source/MultipartFormData.swift:332-335 | a part is added behind the others, without flags |
| `FormData.MultipartFormData.MarkParts` | Traveller/Pods/Alamofire/Source/MultipartFormData.swift:355-356 | only the first and the last part are marked, which may be the same |
| `FormData.MultipartFormData.EncodePart` | Traveller/Pods/Alamofire/Source/MultipartFormData.swift:402-419 | the encoding of one part in memory, according to its flags |
| `FormData.MultipartFormData.WritePart` | Traveller/Pods/Alamofire/Source/MultipartFormData.swift:459-506 | the encoding of the same part, written in four pieces |
| `FormData.MultipartFormData.Encode` | Traveller/Pods/Alamofire/Source/MultipartFormData.swift:348-364 | returns the encoding of the parts with their flags, and fails exactly if an earlier part was refused or a stream fails; the flags stay set and the streams are used up |
| `FormData.MultipartFormData.WriteEncodedData` | Traveller/Pods/Alamofire/Source/MultipartFormData.swift:374-398 | refuses exactly a form with a refused part, a file that exists, a URL that names no file and a file that cannot be created, in this order and before anything is touched; else emits the same encoding piece by piece, leaves the flags set and uses up the streams |
| `FormData.EncodeBothWays` | Traveller/Pods/Alamofire/Source/MultipartFormData.swift:348-398 | for equal forms, the stream receives exactly the bytes of the encoding in memory if and only if it had space each time it was asked |
| `FormData.LoseSilently` | Traveller/Pods/Alamofire/Source/MultipartFormData.swift:520-532 | a concrete form and stream without space: no error, and bytes are missing |
| `FormData.EncodeAppendEncode` | Traveller/Pods/Alamofire/Source/MultipartFormData.swift:332-364 | encoding a form, appending a part and encoding again gives a multipart body of the first parts, whose streams are empty by now, and then the new part as epilogue |
| `FormData.EmittedAll` | Traveller/Pods/Alamofire/Source/MultipartFormData.swift:520-532 | bytes written in pieces are all there exactly if the stream always had space |

## Left out

- nanopb's pointer fields, `pb_release` and allocation: the model follows `pb.h` without `PB_ENABLE_MALLOC`. With it, a schema of static fields behaves the same, except that decoding into a struct whose union selector names no field of the message is an error.
- nanopb's callbacks and extension fields, which run foreign code; custom stream callbacks (streams are memory buffers); error messages; `PB_WITHOUT_64BIT`, `PB_BUFFER_ONLY` and the other alternate builds. Descriptor fields have 32 bits, as the pod is built (`PB_FIELD_32BIT`).
- The delimited and NUL-terminated variants of `pb_encode` and `pb_decode`, which are one call more.
- Decoder.DecodeInto: nothing is said about the struct after a failure.
- Decoder.DecodeStaticField: the unread rest of a fixed-count array is unspecified memory in the model, so neither its stale contents nor the zero written into its first element by setting defaults shows; the bytes of a bool other than 0 and 1 do not show either.
- Encoder.PbEncode: nothing is said when the byte counter would pass 2^64.
- Decode.DecMessage: in an empty message a record with tag 0 is skipped like a bool, as the terminator of the list says; the byte that the C code then writes goes to the placeholder member of the struct (`char dummy_field` in Traveller/Pods/FirebaseFirestore/Firestore/Protos/nanopb/google/protobuf/empty.nanopb.h:37), which is not modelled.
- RoundTrip.RoundTrip: nothing is said about encodings of 2^63 bytes and more.
- Reencode.EncodesTheSame: likewise; `Reencode.SameIfStable` has no such bound.
- Reencode.DecodedIsEncodable: not for schemas with fixed-count arrays, because elements that have not been received are unspecified memory in the model.
- Downloads.Download: whether the cache may be asked, and its answer, are a parameter; the cache that receives the additions is another component, and is only told of them.
- A response without a request, for which the closure returns at once and does nothing; credentials, progress, validation, and everything in the URL session.
- The dispatch queues themselves: a block is an atomic step, and what is dispatched to the main queue counts as called.
- Caching.Add: sizes and their sum are unbounded; the 64-bit counter traps when it overflows.
- Dates are arbitrary integers and prefixes of identifiers compare characters; image sizes are parameters.
- FormData.MultipartFormData.Append: header text is given by its bytes, boundary and headers are not generated, and the variants that open files are not modelled beyond the error flag they set. The streams of a form are distinct objects.
- FormData.MultipartFormData.WriteEncodedData: after an error of the output stream nothing is said about what it has received.
- The app's own code, the rest of Alamofire, and BoringSSL.
