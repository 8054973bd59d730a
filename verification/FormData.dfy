/** MultipartFormData as it runs: its encoder in memory, and the one that copies streams piece by piece to
  * an output stream which may take fewer bytes than it is offered. */
module FormData {
  import opened Options
  import opened Varints
  import opened Multipart
  import opened PartHeaders

  const STREAM_BUFFER_SIZE := 1024

  // ----- streams -----

  /** An input stream over given data. Each read delivers some of the bytes asked for, as many as the
    * schedule says; at one position it may fail. */
  class InputStream {
    const data: seq<byte>
    const amounts: nat -> nat
    const availableAtEnd: bool
    const failsAt: Option<nat>
    var position: nat
    var readCalls: nat
    var streamError: bool

    ghost predicate Valid()
      reads this
    {
      position <= |data| && !streamError && (failsAt.Some? ==> position <= failsAt.value < |data|)
    }

    ghost function Remaining(): seq<byte>
      reads this
      requires Valid()
    {
      data[position..]
    }

    constructor (data: seq<byte>, amounts: nat -> nat, availableAtEnd: bool, failsAt: Option<nat>)
      requires failsAt.Some? ==> failsAt.value < |data|
      ensures Valid() && Remaining() == data && this.failsAt == failsAt
    {
      this.data := data;
      this.amounts := amounts;
      this.availableAtEnd := availableAtEnd;
      this.failsAt := failsAt;
      position := 0;
      readCalls := 0;
      streamError := false;
    }

    function HasBytesAvailable(): bool
      reads this
    {
      position < |data| || availableAtEnd
    }

    /** read(_:maxLength:) */
    method Read(buffer: array<byte>, maxLength: nat) returns (bytesRead: int)
      requires Valid() && 0 < maxLength <= buffer.Length
      modifies this, buffer
      ensures streamError <==> failsAt == Some(old(position))
      ensures !streamError ==> Valid() && 0 <= bytesRead <= maxLength && bytesRead <= |old(Remaining())|
      ensures !streamError ==> position == old(position) + bytesRead
      ensures !streamError ==> buffer[..bytesRead] == old(Remaining())[..bytesRead]
      ensures !streamError && bytesRead == 0 ==> old(Remaining()) == []
    {
      if failsAt == Some(position) {
        streamError := true;
        return -1;
      }
      var end := if failsAt.Some? then failsAt.value else |data|;
      bytesRead := Least(1 + amounts(readCalls), Least(maxLength, end - position));
      readCalls := readCalls + 1;
      var i := 0;
      while i < bytesRead
        invariant 0 <= i <= bytesRead && position == old(position) && !streamError
        invariant buffer[..i] == data[position..][..i]
      {
        buffer[i] := data[position + i];
        i := i + 1;
      }
      position := position + bytesRead;
    }
  }

  function Least(a: nat, b: nat): nat {
    if a <= b then a else b
  }

  /** Where an output stream has got to: what it holds, what it was never given for want of space, and how
    * often it was asked for space. */
  datatype Output = Output(contents: seq<byte>, dropped: nat, checks: nat)

  /** Bytes were written one after another. If the stream always had space they are all there; otherwise
    * some are missing. */
  ghost predicate Emitted(space: nat -> bool, s: Output, t: Output, bs: seq<byte>) {
    && s.checks <= t.checks && s.dropped <= t.dropped && (bs != [] ==> s.checks < t.checks)
    && |t.contents| + t.dropped == |s.contents| + s.dropped + |bs|
    && (t.dropped == s.dropped ==> t.contents == s.contents + bs)
    && (t.dropped == s.dropped <==> AlwaysSpace(space, s.checks, t.checks))
  }

  ghost predicate AlwaysSpace(space: nat -> bool, from: nat, to: nat) {
    forall i | from <= i < to :: space(i)
  }

  ghost predicate Unbreaking(breaks: nat -> bool) {
    forall n: nat :: !breaks(n)
  }

  lemma EmittedNothing(space: nat -> bool, s: Output)
    ensures Emitted(space, s, s, [])
  {
  }

  lemma EmittedBoth(space: nat -> bool, s: Output, t: Output, u: Output, a: seq<byte>, b: seq<byte>)
    requires Emitted(space, s, t, a) && Emitted(space, t, u, b)
    ensures Emitted(space, s, u, a + b)
  {
  }

  /** The stream has received exactly these bytes if and only if it always had space. */
  lemma EmittedAll(space: nat -> bool, s: Output, t: Output, bs: seq<byte>)
    requires Emitted(space, s, t, bs)
    ensures t.contents == s.contents + bs <==> AlwaysSpace(space, s.checks, t.checks)
  {
  }

  /** An output stream that takes some of the bytes offered, as many as the schedule says. Asked whether it
    * has space it may say no; writing may fail. */
  class OutputStream {
    const space: nat -> bool
    const amounts: nat -> nat
    const breaks: nat -> bool
    var contents: seq<byte>
    var checks: nat
    var writes: nat
    var streamError: bool
    ghost var dropped: nat

    ghost function Now(): Output
      reads this
    {
      Output(contents, dropped, checks)
    }

    constructor (space: nat -> bool, amounts: nat -> nat, breaks: nat -> bool)
      ensures Now() == Output([], 0, 0) && !streamError && this.space == space && this.breaks == breaks
    {
      this.space := space;
      this.amounts := amounts;
      this.breaks := breaks;
      contents := [];
      checks := 0;
      writes := 0;
      streamError := false;
      dropped := 0;
    }

    method HasSpaceAvailable() returns (r: bool)
      modifies this`checks
      ensures r == space(old(checks)) && checks == old(checks) + 1
    {
      r := space(checks);
      checks := checks + 1;
    }

    /** write(_:maxLength:) */
    method Write(buffer: seq<byte>, maxLength: nat) returns (bytesWritten: int)
      requires !streamError && 0 < maxLength <= |buffer|
      modifies this`contents, this`writes, this`streamError
      ensures !streamError ==> 0 < bytesWritten <= maxLength && contents == old(contents) + buffer[..bytesWritten]
      ensures Unbreaking(breaks) ==> !streamError
    {
      if breaks(writes) {
        streamError := true;
        return -1;
      }
      bytesWritten := Least(1 + amounts(writes), maxLength);
      writes := writes + 1;
      contents := contents + buffer[..bytesWritten];
    }

    /** The private write of a buffer: the loop gives up without an error when there is no space. */
    method WriteBuffer(bytes: seq<byte>) returns (ok: bool)
      requires !streamError
      modifies this
      ensures ok <==> !streamError
      ensures ok ==> Emitted(space, old(Now()), Now(), bytes)
      ensures Unbreaking(breaks) ==> ok
    {
      ghost var start := Now();
      ghost var done: seq<byte> := [];
      var buffer := bytes;
      var bytesToWrite := |buffer|;
      assert bytes == done + buffer;
      while bytesToWrite > 0
        invariant bytesToWrite == |buffer| && bytes == done + buffer
        invariant !streamError && dropped == start.dropped && contents == start.contents + done
        invariant start.checks <= checks && AlwaysSpace(space, start.checks, checks)
        invariant done != [] ==> start.checks < checks
        decreases bytesToWrite
      {
        var room := HasSpaceAvailable();
        if !room {
          dropped := dropped + bytesToWrite;
          return true;
        }
        var bytesWritten := Write(buffer, bytesToWrite);
        if streamError {
          return false;
        }
        done := done + buffer[..bytesWritten];
        bytesToWrite := bytesToWrite - bytesWritten;
        buffer := buffer[bytesWritten..];
      }
      ok := true;
    }
  }

  // ----- body parts -----

  class BodyPart {
    const headers: seq<(seq<byte>, seq<byte>)>
    const bodyStream: InputStream
    var hasInitialBoundary: bool
    var hasFinalBoundary: bool

    constructor (headers: seq<(seq<byte>, seq<byte>)>, bodyStream: InputStream)
      ensures this.headers == headers && this.bodyStream == bodyStream && !hasInitialBoundary && !hasFinalBoundary
    {
      this.headers := headers;
      this.bodyStream := bodyStream;
      hasInitialBoundary := false;
      hasFinalBoundary := false;
    }

    ghost function Marked(): Multipart.Marked
      reads this, bodyStream
      requires bodyStream.Valid()
    {
      Multipart.Marked(Part(headers, bodyStream.Remaining()), hasInitialBoundary, hasFinalBoundary)
    }

    /** encodeHeaders(for:) */
    method EncodeHeaders() returns (headerData: seq<byte>)
      ensures headerData == HeaderData(headers)
      ensures Clean(headers) ==> ReadPart(headerData) == Some(Part(headers, []))
    {
      var headerText: seq<byte> := [];
      var k := 0;
      assert headers[0..] == headers;
      while k < |headers|
        invariant k <= |headers| && HeaderLines(headers) == headerText + HeaderLines(headers[k..])
      {
        var line := headers[k].0 + COLON + headers[k].1 + CRLF;
        assert headers[k..][1..] == headers[k + 1..];
        assert HeaderLines(headers[k..]) == line + HeaderLines(headers[k + 1..]);
        Multipart.Regroup(headerText, line, HeaderLines(headers[k + 1..]));
        headerText := headerText + line;
        k := k + 1;
      }
      headerData := headerText + CRLF;
      hide Clean, ReadPart;
      if Clean(headers) {
        ReadsHead(headers);
      }
    }

    /** encodeBodyStream(for:) */
    method EncodeBodyStream() returns (ok: bool, encoded: seq<byte>)
      requires bodyStream.Valid()
      modifies bodyStream
      ensures ok <==> bodyStream.failsAt == None
      ensures ok ==> bodyStream.Valid() && encoded == old(bodyStream.Remaining()) && bodyStream.Remaining() == []
    {
      ghost var first := bodyStream.position;
      encoded := [];
      while bodyStream.HasBytesAvailable()
        invariant bodyStream.Valid() && first <= bodyStream.position
        invariant encoded == bodyStream.data[first..bodyStream.position]
        decreases |bodyStream.data| - bodyStream.position
      {
        var buffer := new byte[STREAM_BUFFER_SIZE];
        ghost var position := bodyStream.position;
        var bytesRead := bodyStream.Read(buffer, STREAM_BUFFER_SIZE);
        if bodyStream.streamError {
          return false, [];
        }
        if bytesRead > 0 {
          ChunkRead(bodyStream.data, first, position, bytesRead);
          encoded := encoded + buffer[..bytesRead];
        } else {
          break;
        }
      }
      ok := true;
    }

    /** writeBodyStream(for:to:) */
    method WriteBodyStream(output: OutputStream) returns (ok: bool)
      requires bodyStream.Valid() && !output.streamError
      modifies bodyStream, output
      ensures ok <==> bodyStream.failsAt == None && !output.streamError
      ensures ok ==> bodyStream.Valid() && bodyStream.Remaining() == []
      ensures ok ==> Emitted(output.space, old(output.Now()), output.Now(), old(bodyStream.Remaining()))
      ensures Unbreaking(output.breaks) ==> !output.streamError
    {
      ghost var start := output.Now();
      ghost var first := bodyStream.position;
      EmittedNothing(output.space, start);
      hide Emitted;
      assert bodyStream.data[first..first] == [];
      while bodyStream.HasBytesAvailable()
        invariant bodyStream.Valid() && first <= bodyStream.position && !output.streamError
        invariant Emitted(output.space, start, output.Now(), bodyStream.data[first..bodyStream.position])
        decreases |bodyStream.data| - bodyStream.position
      {
        var buffer := new byte[STREAM_BUFFER_SIZE];
        ghost var position, middle := bodyStream.position, output.Now();
        var bytesRead := bodyStream.Read(buffer, STREAM_BUFFER_SIZE);
        if bodyStream.streamError {
          return false;
        }
        if bytesRead > 0 {
          ghost var before, chunk := bodyStream.data[first..position], buffer[..bytesRead];
          ChunkRead(bodyStream.data, first, position, bytesRead);
          ok := output.WriteBuffer(buffer[..bytesRead]);
          if !ok {
            return;
          }
          EmittedBoth(output.space, start, middle, output.Now(), before, chunk);
        } else {
          break;
        }
      }
      ok := true;
    }
  }

  lemma ChunkRead(data: seq<byte>, first: nat, position: nat, n: nat)
    requires first <= position && position + n <= |data|
    ensures data[first..position] + data[position..][..n] == data[first..position + n]
  {
  }

  // ----- forms -----

  /** A part whose stream has been read to its end. */
  function SpentPart(m: Multipart.Marked): Multipart.Marked {
    m.(part := m.part.(body := []))
  }

  function Spent(ms: seq<Multipart.Marked>): seq<Multipart.Marked> {
    seq(|ms|, i requires 0 <= i < |ms| => SpentPart(ms[i]))
  }

  /** What the file system says about the file to write to. */
  datatype File = File(present: bool, isFileURL: bool, creatable: bool)

  /** How writing a form has ended. */
  datatype WriteOutcome = Written | PartRefused | FileExists | NotAFileURL | NotCreated | StreamFailed

  class MultipartFormData {
    const boundary: seq<byte>
    var bodyParts: seq<BodyPart>
    var bodyPartError: bool

    /** The parts and their streams are distinct objects, and none of the streams has failed yet. */
    ghost predicate Valid()
      reads this, bodyParts, Streams()
    {
      && (forall i | 0 <= i < |bodyParts| :: bodyParts[i].bodyStream.Valid())
      && forall i, j | 0 <= i < j < |bodyParts| ::
           bodyParts[i] != bodyParts[j] && bodyParts[i].bodyStream != bodyParts[j].bodyStream
    }

    ghost function Streams(): set<InputStream>
      reads this
    {
      set i | 0 <= i < |bodyParts| :: bodyParts[i].bodyStream
    }

    /** The parts as they are now: what is left of their streams, and their flags. */
    ghost function Parts(): (ms: seq<Multipart.Marked>)
      reads this, bodyParts, Streams()
      requires Valid()
      ensures |ms| == |bodyParts|
    {
      seq(|bodyParts|, i requires 0 <= i < |bodyParts| requires Valid() reads this, bodyParts, Streams() =>
        bodyParts[i].Marked())
    }

    /** Some stream cannot be read to its end. */
    ghost predicate SomeFails()
      reads this
    {
      exists i :: 0 <= i < |bodyParts| && bodyParts[i].bodyStream.failsAt.Some?
    }

    constructor (boundary: seq<byte>)
      ensures Valid() && Parts() == [] && this.boundary == boundary && !bodyPartError && bodyParts == []
    {
      this.boundary := boundary;
      bodyParts := [];
      bodyPartError := false;
    }

    /** append(_:withLength:headers:) */
    method Append(stream: InputStream, headers: seq<(seq<byte>, seq<byte>)>)
      requires Valid() && stream.Valid() && stream !in Streams()
      modifies this`bodyParts
      ensures Valid() && Parts() == old(Parts()) + [Multipart.Marked(Part(headers, stream.Remaining()), false, false)]
      ensures |bodyParts| == |old(bodyParts)| + 1 && fresh(bodyParts[|old(bodyParts)|])
      ensures forall i | 0 <= i < |old(bodyParts)| :: bodyParts[i] == old(bodyParts)[i]
      ensures Streams() == old(Streams()) + {stream} && (SomeFails() <==> old(SomeFails()) || stream.failsAt.Some?)
    {
      var bodyPart := new BodyPart(headers, stream);
      ghost var before := bodyParts;
      bodyParts := bodyParts + [bodyPart];
      assert forall i | 0 <= i < |before| :: bodyParts[i] == before[i];
      assert bodyParts[|before|] == bodyPart;
      assert old(SomeFails()) ==> SomeFails() by {
        if i :| 0 <= i < |before| && before[i].bodyStream.failsAt.Some? {
          assert bodyParts[i].bodyStream.failsAt.Some?;
        }
      }
      assert forall i | 0 <= i < |before| :: before[i].bodyStream in Streams();
    }

    /** The flags that both encoders set first. */
    method MarkParts()
      requires Valid()
      modifies bodyParts
      ensures Valid() && Parts() == Mark(old(Parts()))
    {
      if bodyParts != [] {
        bodyParts[0].hasInitialBoundary := true;
        bodyParts[|bodyParts| - 1].hasFinalBoundary := true;
      }
    }

    /** The loops over the parts have come to part i: those from there on are untouched, and those before
      * have been read to their ends. */
    ghost predicate Reached(ms: seq<Multipart.Marked>, i: nat)
      reads this, bodyParts, Streams()
    {
      && Valid() && i <= |ms| == |bodyParts|
      && (forall j | i <= j < |bodyParts| :: bodyParts[j].Marked() == ms[j])
      && forall j | 0 <= j < i :: bodyParts[j].bodyStream.failsAt.None? && bodyParts[j].Marked() == SpentPart(ms[j])
    }

    lemma ReachedFirst()
      requires Valid()
      ensures Reached(Parts(), 0)
    {
    }

    lemma ReachedEnd(ms: seq<Multipart.Marked>)
      requires Reached(ms, |ms|)
      ensures !SomeFails() && Valid() && Parts() == Spent(ms)
    {
    }

    /** encode() */
    method Encode() returns (ok: bool, encoded: seq<byte>)
      requires Valid()
      modifies bodyParts, Streams()
      ensures ok <==> !bodyPartError && !SomeFails()
      ensures ok ==> Valid() && encoded == EncParts(boundary, Mark(old(Parts())))
      ensures ok ==> Parts() == Spent(Mark(old(Parts())))
    {
      encoded := [];
      if bodyPartError {
        return false, encoded;
      }
      MarkParts();
      ghost var ms := Parts();
      ReachedFirst();
      NoPartYet(boundary, ms);
      hide Reached, Valid, EncPart, EncParts, Mark, SomeFails, Encoded;
      var i := 0;
      while i < |bodyParts|
        invariant i <= |bodyParts| == |ms| && Reached(ms, i)
        invariant Encoded(boundary, ms, i, encoded)
      {
        var data;
        ok, data := EncodePartAt(i, ms);
        if !ok {
          return false, [];
        }
        NextPart(boundary, ms, i, encoded);
        encoded := encoded + data;
        i := i + 1;
      }
      ReachedEnd(ms);
      NoPartLeft(boundary, ms, encoded);
      ok := true;
    }

    method EncodePartAt(i: nat, ghost ms: seq<Multipart.Marked>) returns (ok: bool, data: seq<byte>)
      requires i < |bodyParts| == |ms| && Reached(ms, i)
      modifies Streams()
      ensures ok ==> data == EncPart(boundary, ms[i]) && Reached(ms, i + 1)
      ensures !ok ==> SomeFails()
    {
      ok, data := EncodePart(bodyParts[i]);
    }

    /** encode(_: BodyPart) */
    method EncodePart(bodyPart: BodyPart) returns (ok: bool, encoded: seq<byte>)
      requires bodyPart.bodyStream.Valid()
      modifies bodyPart.bodyStream
      ensures ok <==> bodyPart.bodyStream.failsAt == None
      ensures ok ==> bodyPart.bodyStream.Valid() && encoded == EncPart(boundary, old(bodyPart.Marked()))
      ensures ok ==> bodyPart.Marked() == SpentPart(old(bodyPart.Marked()))
    {
      hide BoundaryData, HeaderData;
      encoded := BoundaryData(if bodyPart.hasInitialBoundary then INITIAL else ENCAPSULATED, boundary);
      var headerData := bodyPart.EncodeHeaders();
      encoded := encoded + headerData;
      var bodyStreamData;
      ok, bodyStreamData := bodyPart.EncodeBodyStream();
      if !ok {
        return;
      }
      encoded := encoded + bodyStreamData;
      if bodyPart.hasFinalBoundary {
        encoded := encoded + BoundaryData(FINAL, boundary);
      } else {
        assert encoded + [] == encoded;
      }
    }

    /** writeEncodedData(to:), with what the file system answers and the stream that it opens */
    method WriteEncodedData(file: File, output: OutputStream) returns (outcome: WriteOutcome)
      requires Valid() && !output.streamError
      modifies bodyParts, Streams(), output
      ensures outcome.PartRefused? <==> bodyPartError
      ensures outcome.FileExists? <==> !bodyPartError && file.present
      ensures outcome.NotAFileURL? <==> !bodyPartError && !file.present && !file.isFileURL
      ensures outcome.NotCreated? <==> !bodyPartError && !file.present && file.isFileURL && !file.creatable
      ensures outcome.StreamFailed? ==> SomeFails() || output.streamError
      ensures !outcome.Written? && !outcome.StreamFailed? ==>
                Valid() && Parts() == old(Parts()) && output.Now() == old(output.Now()) && !output.streamError
      ensures outcome.Written? ==> !SomeFails() && !output.streamError
      ensures outcome.Written? ==> Valid() && Parts() == Spent(Mark(old(Parts())))
      ensures outcome.Written? ==>
                Emitted(output.space, old(output.Now()), output.Now(), EncParts(boundary, Mark(old(Parts()))))
      ensures Unbreaking(output.breaks) ==> !output.streamError
    {
      if bodyPartError {
        return PartRefused;
      }
      if file.present {
        return FileExists;
      } else if !file.isFileURL {
        return NotAFileURL;
      }
      if !file.creatable {
        return NotCreated;
      }
      MarkParts();
      ghost var ms := Parts();
      ReachedFirst();
      hide Emitted, Reached, Valid, EncParts, Mark, SomeFails, Unbreaking;
      var ok := WriteParts(output, ms);
      if ok {
        ReachedEnd(ms);
      }
      outcome := if ok then Written else StreamFailed;
    }

    method WriteParts(output: OutputStream, ghost ms: seq<Multipart.Marked>) returns (ok: bool)
      requires |ms| == |bodyParts| && Reached(ms, 0) && !output.streamError
      modifies Streams(), output
      ensures ok ==> !output.streamError && Reached(ms, |ms|)
      ensures !ok ==> SomeFails() || output.streamError
      ensures ok ==> Emitted(output.space, old(output.Now()), output.Now(), EncParts(boundary, ms))
      ensures Unbreaking(output.breaks) ==> !output.streamError
    {
      ghost var start := output.Now();
      ghost var done: seq<byte> := [];
      EmittedNothing(output.space, start);
      NoPartYet(boundary, ms);
      hide Emitted, Reached, Valid, EncPart, EncParts, SomeFails, Encoded, Unbreaking;
      var i := 0;
      while i < |bodyParts|
        invariant i <= |bodyParts| == |ms| && Reached(ms, i) && !output.streamError
        invariant Encoded(boundary, ms, i, done)
        invariant Emitted(output.space, start, output.Now(), done)
      {
        ghost var before := output.Now();
        ok := WritePartAt(i, ms, output);
        if !ok {
          return;
        }
        NextPart(boundary, ms, i, done);
        EmittedBoth(output.space, start, before, output.Now(), done, EncPart(boundary, ms[i]));
        done := done + EncPart(boundary, ms[i]);
        i := i + 1;
      }
      NoPartLeft(boundary, ms, done);
      ok := true;
    }

    method WritePartAt(i: nat, ghost ms: seq<Multipart.Marked>, output: OutputStream) returns (ok: bool)
      requires i < |bodyParts| == |ms| && Reached(ms, i) && !output.streamError
      modifies Streams(), output
      ensures ok ==> Reached(ms, i + 1)
      ensures ok ==> Emitted(output.space, old(output.Now()), output.Now(), EncPart(boundary, ms[i]))
      ensures ok ==> !output.streamError
      ensures !ok ==> SomeFails() || output.streamError
      ensures Unbreaking(output.breaks) ==> !output.streamError
    {
      hide Emitted, EncPart, Unbreaking;
      ok := WritePart(bodyParts[i], output);
    }

    /** write(_: BodyPart, to:) */
    method WritePart(bodyPart: BodyPart, output: OutputStream) returns (ok: bool)
      requires bodyPart.bodyStream.Valid() && !output.streamError
      modifies bodyPart.bodyStream, output
      ensures ok <==> bodyPart.bodyStream.failsAt == None && !output.streamError
      ensures ok ==> bodyPart.bodyStream.Valid() && bodyPart.Marked() == SpentPart(old(bodyPart.Marked()))
      ensures ok ==> Emitted(output.space, old(output.Now()), output.Now(), EncPart(boundary, old(bodyPart.Marked())))
      ensures Unbreaking(output.breaks) ==> !output.streamError
    {
      hide Emitted, BoundaryData, HeaderData, Unbreaking;
      ghost var s0 := output.Now();
      ghost var body := bodyPart.bodyStream.Remaining();
      var initialData := BoundaryData(if bodyPart.hasInitialBoundary then INITIAL else ENCAPSULATED, boundary);
      ok := output.WriteBuffer(initialData);
      if !ok {
        return;
      }
      ghost var s1 := output.Now();
      var headerData := bodyPart.EncodeHeaders();
      ok := output.WriteBuffer(headerData);
      if !ok {
        return;
      }
      ghost var s2 := output.Now();
      EmittedBoth(output.space, s0, s1, s2, initialData, headerData);
      ok := bodyPart.WriteBodyStream(output);
      if !ok {
        return;
      }
      ghost var s3 := output.Now();
      EmittedBoth(output.space, s0, s2, s3, initialData + headerData, body);
      var finalData := if bodyPart.hasFinalBoundary then BoundaryData(FINAL, boundary) else [];
      if bodyPart.hasFinalBoundary {
        ok := output.WriteBuffer(finalData);
      } else {
        EmittedNothing(output.space, s3);
      }
      if ok {
        EmittedBoth(output.space, s0, s3, output.Now(), initialData + headerData + body, finalData);
      }
    }
  }

  /** The first i parts have been encoded. */
  ghost predicate Encoded(boundary: seq<byte>, ms: seq<Multipart.Marked>, i: nat, done: seq<byte>) {
    i <= |ms| && EncParts(boundary, ms) == done + EncParts(boundary, ms[i..])
  }

  lemma NoPartYet(boundary: seq<byte>, ms: seq<Multipart.Marked>)
    ensures Encoded(boundary, ms, 0, [])
  {
    assert ms[0..] == ms;
  }

  lemma NextPart(boundary: seq<byte>, ms: seq<Multipart.Marked>, i: nat, done: seq<byte>)
    requires i < |ms| && Encoded(boundary, ms, i, done)
    ensures Encoded(boundary, ms, i + 1, done + EncPart(boundary, ms[i]))
  {
    assert ms[i..][1..] == ms[i + 1..];
    Multipart.Regroup(done, EncPart(boundary, ms[i]), EncParts(boundary, ms[i + 1..]));
    hide EncPart;
  }

  lemma NoPartLeft(boundary: seq<byte>, ms: seq<Multipart.Marked>, done: seq<byte>)
    requires Encoded(boundary, ms, |ms|, done)
    ensures EncParts(boundary, ms) == done
  {
  }

  /** Two forms with equal parts, one encoded in memory and the other to a stream: whatever the pieces in
    * which streams are read and written, the output stream receives the same bytes, if and only if it
    * had space each time it was asked. */
  method EncodeBothWays(inMemory: MultipartFormData, streamed: MultipartFormData, file: File, output: OutputStream)
    returns (encoded: bool, data: seq<byte>, outcome: WriteOutcome)
    requires inMemory.Valid() && streamed.Valid() && !output.streamError
    requires inMemory.boundary == streamed.boundary && inMemory.Parts() == streamed.Parts()
    requires inMemory.Streams() !! streamed.Streams()
    requires forall i, j | 0 <= i < |inMemory.bodyParts| && 0 <= j < |streamed.bodyParts| ::
               inMemory.bodyParts[i] != streamed.bodyParts[j]
    modifies inMemory.bodyParts, inMemory.Streams(), streamed.bodyParts, streamed.Streams(), output
    ensures encoded && outcome.Written? ==>
              (output.contents == old(output.contents) + data <==>
                 AlwaysSpace(output.space, old(output.checks), output.checks))
    ensures encoded && outcome.StreamFailed? ==> streamed.SomeFails() || output.streamError
  {
    hide Emitted, EncParts, Mark;
    ghost var parts := streamed.Parts();
    encoded, data := inMemory.Encode();
    assert streamed.Valid() && streamed.Parts() == parts;
    ghost var start := output.Now();
    outcome := streamed.WriteEncodedData(file, output);
    if encoded && outcome.Written? {
      EmittedAll(output.space, start, output.Now(), data);
    }
  }

  /** A form with one part, written to a stream that never has space: no error, and bytes are missing. */
  method LoseSilently() returns (outcome: WriteOutcome, output: OutputStream)
    ensures fresh(output) && outcome.Written? && !output.streamError
    ensures |output.contents| < |EncParts([], [Multipart.Marked(Part([], []), true, true)])|
  {
    var form := new MultipartFormData([]);
    var stream := new InputStream([], _ => 0, false, None);
    form.Append(stream, []);
    ghost var ms := form.Parts();
    output := new OutputStream(_ => false, _ => 0, _ => false);
    outcome := form.WriteEncodedData(File(false, true, true), output);
    ghost var marked := Multipart.Marked(Part([], []), true, true);
    assert Mark(ms) == [marked];
    SomeBytes([], marked);
    assert !AlwaysSpace(output.space, 0, output.checks) by { assert !output.space(0); }
  }

  lemma SomeBytes(boundary: seq<byte>, m: Multipart.Marked)
    ensures EncParts(boundary, [m]) != []
  {
    assert EncParts(boundary, [m]) == EncPart(boundary, m) + EncParts(boundary, [m][1..]);
    EncPartLength(boundary, m);
    hide EncPart, HeaderData;
  }

  /** A part is added to a form that has been encoded, and the form is encoded again: a reader of the second
    * encoding finds the parts of the first, emptied, and the new part in the epilogue. */
  method EncodeAppendEncode(form: MultipartFormData, stream: InputStream, headers: seq<(seq<byte>, seq<byte>)>)
    returns (ok: bool, first: seq<byte>, second: seq<byte>)
    requires form.Valid() && form.bodyParts != [] && Plain(form.Parts())
    requires stream.Valid() && stream !in form.Streams()
    modifies form, form.bodyParts, form.Streams(), stream
    ensures ok <==> !old(form.bodyPartError) && !old(form.SomeFails()) && stream.failsAt == None
    ensures ok ==> first == MultipartBody(form.boundary, Bodies(old(form.Parts())))
    ensures ok ==>
              second == MultipartBody(form.boundary, Bodies(Spent(old(form.Parts()))))
                      + EncPart(form.boundary, Multipart.Marked(Part(headers, old(stream.Remaining())), false, true))
  {
    ghost var parts := form.Parts();
    ghost var added := Multipart.Marked(Part(headers, stream.Remaining()), false, false);
    FollowsGrammar(form.boundary, parts);
    SecondEncoding(form.boundary, parts, added);
    hide *;
    second := [];
    ok, first := form.Encode();
    if ok {
      assert first == EncParts(form.boundary, Mark(parts));
      assert form.Parts() == Spent(Mark(parts)) && stream.Valid() && stream.Remaining() == added.part.body;
      ok, second := AppendAndEncode(form, stream, headers);
    }
  }

  method AppendAndEncode(form: MultipartFormData, stream: InputStream, headers: seq<(seq<byte>, seq<byte>)>)
    returns (ok: bool, data: seq<byte>)
    requires form.Valid() && stream.Valid() && stream !in form.Streams()
    modifies form, form.bodyParts, form.Streams(), stream
    ensures ok <==> !old(form.bodyPartError) && !old(form.SomeFails()) && stream.failsAt == None
    ensures ok ==>
              var added := Multipart.Marked(Part(headers, old(stream.Remaining())), false, false);
              data == EncParts(form.boundary, Mark(old(form.Parts()) + [added]))
  {
    hide *;
    form.Append(stream, headers);
    ghost var ms := form.Parts();
    ok, data := form.Encode();
    assert ok ==> data == EncParts(form.boundary, Mark(ms));
  }

  lemma SecondEncoding(boundary: seq<byte>, parts: seq<Multipart.Marked>, added: Multipart.Marked)
    requires parts != [] && Plain(parts) && !added.initial
    ensures EncParts(boundary, Mark(Spent(Mark(parts)) + [added]))
         == MultipartBody(boundary, Bodies(Spent(parts))) + EncPart(boundary, added.(final := true))
  {
    var ms, n := Spent(Mark(parts)) + [added], |parts|;
    assert FirstFinal(ms, n - 1);
    LaterPartsInEpilogue(boundary, ms, n - 1);
    SameBodies(ms[..n], Spent(parts));
    assert Mark(ms)[n..] == [added.(final := true)];
    hide EncPart, MultipartBody, Bodies, Mark, Plain;
    var last := added.(final := true);
    assert EncParts(boundary, [last]) == EncPart(boundary, last) + EncParts(boundary, [last][1..]);
  }
}
