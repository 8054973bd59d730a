/** The multipart/form-data encoding of MultipartFormData, the grammar it should follow (section 5.1.1 of
  * RFC 2046), and a reader for that grammar. */
module Multipart {
  import opened Options
  import opened Varints

  const CR: byte := 13
  const LF: byte := 10
  const DASH: byte := 45
  const CRLF: seq<byte> := [CR, LF]
  const DASHES: seq<byte> := [DASH, DASH]
  const COLON: seq<byte> := [58, 32]

  /** Header text is given by its UTF-8 bytes, in the order in which the dictionary yields it. */
  datatype Part = Part(headers: seq<(seq<byte>, seq<byte>)>, body: seq<byte>)

  /** A part with its boundary flags. */
  datatype Marked = Marked(part: Part, initial: bool, final: bool)

  // ----- what the encoder writes -----

  datatype BoundaryType = INITIAL | ENCAPSULATED | FINAL

  function BoundaryData(kind: BoundaryType, boundary: seq<byte>): seq<byte> {
    match kind
    case INITIAL => DASHES + boundary + CRLF
    case ENCAPSULATED => CRLF + DASHES + boundary + CRLF
    case FINAL => CRLF + DASHES + boundary + DASHES + CRLF
  }

  function HeaderLines(headers: seq<(seq<byte>, seq<byte>)>): seq<byte> {
    if headers == [] then [] else headers[0].0 + COLON + headers[0].1 + CRLF + HeaderLines(headers[1..])
  }

  function HeaderData(headers: seq<(seq<byte>, seq<byte>)>): seq<byte> {
    HeaderLines(headers) + CRLF
  }

  function EncPart(boundary: seq<byte>, m: Marked): seq<byte> {
    BoundaryData(if m.initial then INITIAL else ENCAPSULATED, boundary) + HeaderData(m.part.headers) + m.part.body
    + (if m.final then BoundaryData(FINAL, boundary) else [])
  }

  function EncParts(boundary: seq<byte>, ms: seq<Marked>): seq<byte> {
    if ms == [] then [] else EncPart(boundary, ms[0]) + EncParts(boundary, ms[1..])
  }

  /** The flags that encode and writeEncodedData set before they begin. */
  function Mark(ms: seq<Marked>): seq<Marked> {
    if ms == [] then []
    else
      var marked := ms[0 := ms[0].(initial := true)];
      marked[|ms| - 1 := marked[|ms| - 1].(final := true)]
  }

  // ----- the grammar -----

  /** dash-boundary */
  function DashBoundary(boundary: seq<byte>): seq<byte> {
    DASHES + boundary
  }

  /** delimiter */
  function Delimiter(boundary: seq<byte>): seq<byte> {
    CRLF + DashBoundary(boundary)
  }

  /** body-part */
  function BodyPart(p: Part): seq<byte> {
    HeaderData(p.headers) + p.body
  }

  /** *encapsulation close-delimiter [CRLF epilogue], with an empty epilogue */
  function Encapsulations(boundary: seq<byte>, parts: seq<seq<byte>>): seq<byte> {
    if parts == [] then Delimiter(boundary) + DASHES + CRLF
    else Delimiter(boundary) + CRLF + parts[0] + Encapsulations(boundary, parts[1..])
  }

  /** multipart-body, without preamble and padding */
  function MultipartBody(boundary: seq<byte>, parts: seq<seq<byte>>): seq<byte>
    requires parts != []
  {
    DashBoundary(boundary) + CRLF + parts[0] + Encapsulations(boundary, parts[1..])
  }

  function Bodies(ms: seq<Marked>): (parts: seq<seq<byte>>)
    ensures |parts| == |ms|
  {
    if ms == [] then [] else [BodyPart(ms[0].part)] + Bodies(ms[1..])
  }

  // ----- the encoder follows the grammar -----

  predicate Plain(ms: seq<Marked>) {
    forall i | 0 <= i < |ms| :: !ms[i].initial && !ms[i].final
  }

  lemma Regroup(a: seq<byte>, b: seq<byte>, c: seq<byte>)
    ensures (a + b) + c == a + (b + c)
  {
  }

  lemma BoundaryNames(boundary: seq<byte>)
    ensures BoundaryData(INITIAL, boundary) == DashBoundary(boundary) + CRLF
    ensures BoundaryData(ENCAPSULATED, boundary) == Delimiter(boundary) + CRLF
    ensures BoundaryData(FINAL, boundary) == Delimiter(boundary) + DASHES + CRLF
  {
  }

  /** The kinds of parts, in the words of the grammar. */
  lemma PartShapes(boundary: seq<byte>, m: Marked)
    ensures EncPart(boundary, m)
         == (if m.initial then DashBoundary(boundary) else Delimiter(boundary)) + CRLF + BodyPart(m.part)
          + (if m.final then Delimiter(boundary) + DASHES + CRLF else [])
  {
    BoundaryNames(boundary);
    var first := BoundaryData(if m.initial then INITIAL else ENCAPSULATED, boundary);
    Regroup(first, HeaderData(m.part.headers), m.part.body);
    hide HeaderData, BoundaryData, Delimiter, DashBoundary;
  }

  lemma FirstPart(boundary: seq<byte>, ms: seq<Marked>)
    requires ms != []
    ensures Bodies(ms)[0] == BodyPart(ms[0].part) && Bodies(ms)[1..] == Bodies(ms[1..])
    ensures EncParts(boundary, ms) == EncPart(boundary, ms[0]) + EncParts(boundary, ms[1..])
    ensures Encapsulations(boundary, Bodies(ms))
         == Delimiter(boundary) + CRLF + BodyPart(ms[0].part) + Encapsulations(boundary, Bodies(ms[1..]))
  {
    hide EncPart, BodyPart, Delimiter;
  }

  lemma NoPart(boundary: seq<byte>)
    ensures Bodies([]) == [] && EncParts(boundary, []) == []
    ensures Encapsulations(boundary, []) == Delimiter(boundary) + DASHES + CRLF
  {
  }

  /** Of the parts behind the first, only the last is marked. */
  predicate TailMarked(ms: seq<Marked>) {
    ms != [] ==> !ms[0].initial && (ms[0].final <==> |ms| == 1) && TailMarked(ms[1..])
  }

  lemma {:induction false} TailFollowsGrammar(boundary: seq<byte>, ms: seq<Marked>)
    requires ms != [] && TailMarked(ms)
    ensures EncParts(boundary, ms) == Encapsulations(boundary, Bodies(ms))
    decreases |ms|
  {
    PartShapes(boundary, ms[0]);
    FirstPart(boundary, ms);
    if |ms| == 1 {
      assert ms[1..] == [];
      hide TailMarked, EncPart, BodyPart, Delimiter, EncParts, Encapsulations, Bodies;
      NoPart(boundary);
      assert EncParts(boundary, ms) == EncPart(boundary, ms[0]);
    } else {
      TailFollowsGrammar(boundary, ms[1..]);
      hide TailMarked, EncPart, BodyPart, Delimiter, EncParts, Encapsulations, Bodies;
    }
  }

  lemma {:induction false} MarksTail(ms: seq<Marked>, from: nat)
    requires ms != [] && Plain(ms) && 1 <= from <= |ms|
    ensures TailMarked(Mark(ms)[from..])
    decreases |ms| - from
  {
    if from < |ms| {
      MarksTail(ms, from + 1);
      assert Mark(ms)[from..][1..] == Mark(ms)[from + 1..];
    }
  }

  lemma {:induction false} SameBodies(ms: seq<Marked>, others: seq<Marked>)
    requires |ms| == |others| && forall i | 0 <= i < |ms| :: ms[i].part == others[i].part
    ensures Bodies(ms) == Bodies(others)
  {
    if ms != [] {
      SameBodies(ms[1..], others[1..]);
    }
  }

  /** The first encoding of a form is a multipart body with the parts in order, if there are any; a form
    * without parts is encoded to nothing, which is no multipart body. */
  lemma FollowsGrammar(boundary: seq<byte>, ms: seq<Marked>)
    requires Plain(ms)
    ensures ms != [] ==> EncParts(boundary, Mark(ms)) == MultipartBody(boundary, Bodies(ms))
    ensures ms == [] ==> forall parts | parts != [] :: EncParts(boundary, Mark(ms)) != MultipartBody(boundary, parts)
  {
    if ms == [] {
      assert EncParts(boundary, Mark(ms)) == [];
      assert forall parts | parts != [] :: |MultipartBody(boundary, parts)| >= |CRLF|;
    } else {
      SomeFollowsGrammar(boundary, ms);
    }
  }

  lemma SomeFollowsGrammar(boundary: seq<byte>, ms: seq<Marked>)
    requires ms != [] && Plain(ms)
    ensures EncParts(boundary, Mark(ms)) == MultipartBody(boundary, Bodies(ms))
  {
    MarkFacts(ms);
    hide Mark, Plain, EncPart, BodyPart, Delimiter, DashBoundary, EncParts, Encapsulations, Bodies, TailMarked;
    var first, tail := Mark(ms)[0], Mark(ms)[1..];
    FirstPart(boundary, Mark(ms));
    PartShapes(boundary, first);
    var part := DashBoundary(boundary) + CRLF + BodyPart(first.part);
    assert MultipartBody(boundary, Bodies(ms)) == part + Encapsulations(boundary, Bodies(tail));
    if tail == [] {
      NoPart(boundary);
      assert EncParts(boundary, Mark(ms)) == EncPart(boundary, first);
    } else {
      TailFollowsGrammar(boundary, tail);
      assert EncPart(boundary, first) == part;
    }
  }

  lemma MarkFacts(ms: seq<Marked>)
    requires ms != [] && Plain(ms)
    ensures |Mark(ms)| == |ms| && Mark(ms)[0].initial && (Mark(ms)[0].final <==> Mark(ms)[1..] == [])
    ensures Bodies(Mark(ms)) == Bodies(ms) && TailMarked(Mark(ms)[1..])
  {
    MarksTail(ms, 1);
    SameBodies(ms, Mark(ms));
  }

  // ----- reading it back -----

  predicate At(s: seq<byte>, i: nat, pattern: seq<byte>) {
    i + |pattern| <= |s| && s[i..i + |pattern|] == pattern
  }

  ghost predicate Contains(s: seq<byte>, pattern: seq<byte>) {
    exists i: nat :: At(s, i, pattern)
  }

  /** The first place where the pattern occurs. */
  function Search(s: seq<byte>, pattern: seq<byte>, from: nat): (r: Option<nat>)
    ensures r.Some? ==>
              from <= r.value && At(s, r.value, pattern) && forall i | from <= i < r.value :: !At(s, i, pattern)
    ensures r.None? ==> forall i | from <= i <= |s| :: !At(s, i, pattern)
    decreases |s| - from
  {
    if At(s, from, pattern) then Some(from) else if from >= |s| then None else Search(s, pattern, from + 1)
  }

  /** Cuts the rest of a multipart body at its delimiters, up to the close-delimiter. What comes behind that
    * is an epilogue, which readers ignore. */
  function ReadParts(boundary: seq<byte>, s: seq<byte>): (r: Option<seq<seq<byte>>>)
    decreases |s|
  {
    match Search(s, Delimiter(boundary), 0)
    case None => None
    case Some(i) =>
      var rest := s[i + |Delimiter(boundary)|..];
      if At(rest, 0, DASHES) then Some([s[..i]])
      else if !At(rest, 0, CRLF) then None
      else
        match ReadParts(boundary, rest[2..])
        case None => None
        case Some(parts) => Some([s[..i]] + parts)
  }

  function ReadMultipart(boundary: seq<byte>, s: seq<byte>): Option<seq<seq<byte>>> {
    var opening := DashBoundary(boundary) + CRLF;
    if At(s, 0, opening) then ReadParts(boundary, s[|opening|..]) else None
  }

  /** A delimiter behind a part that does not contain it is found where that part ends: because it has
    * its only CR in front, it cannot begin inside the part and end behind it. */
  lemma FirstDelimiter(boundary: seq<byte>, part: seq<byte>, rest: seq<byte>)
    requires CR !in boundary && !Contains(part, Delimiter(boundary))
    ensures Search(part + Delimiter(boundary) + rest, Delimiter(boundary), 0) == Some(|part|)
  {
    var d := Delimiter(boundary);
    var s := part + d + rest;
    assert At(s, |part|, d);
    forall i: nat | i < |part|
      ensures !At(s, i, d)
    {
      if i + |d| <= |part| {
        assert part[i..i + |d|] == s[i..i + |d|];
        assert !At(part, i, d);
      } else {
        var j := |part| - i;
        assert s[i..i + |d|][j] == CR;
        assert j >= 4 ==> d[j] == boundary[j - 4];
      }
    }
  }

  lemma {:induction false} ReadsParts(boundary: seq<byte>, first: seq<byte>, parts: seq<seq<byte>>, epilogue: seq<byte>)
    requires CR !in boundary && !Contains(first, Delimiter(boundary))
    requires forall i | 0 <= i < |parts| :: !Contains(parts[i], Delimiter(boundary))
    ensures ReadParts(boundary, first + (Encapsulations(boundary, parts) + epilogue)) == Some([first] + parts)
    decreases |parts|
  {
    var d := Delimiter(boundary);
    hide Delimiter, Contains;
    if parts == [] {
      assert Encapsulations(boundary, parts) == d + DASHES + CRLF;
      Regroup(d, DASHES, CRLF);
      Regroup(d, DASHES + CRLF, epilogue);
      hide Encapsulations;
      Cut(boundary, first, DASHES + CRLF + epilogue, []);
      assert [first] + parts == [first];
    } else {
      var more := parts[0] + (Encapsulations(boundary, parts[1..]) + epilogue);
      assert Encapsulations(boundary, parts) == d + CRLF + parts[0] + Encapsulations(boundary, parts[1..]);
      hide Encapsulations;
      NextDelimiter(d, parts[0], Encapsulations(boundary, parts[1..]), epilogue);
      ReadsParts(boundary, parts[0], parts[1..], epilogue);
      Cut(boundary, first, CRLF + more, more);
      assert [parts[0]] + parts[1..] == parts;
    }
  }

  lemma NextDelimiter(d: seq<byte>, part: seq<byte>, rest: seq<byte>, epilogue: seq<byte>)
    ensures (d + CRLF + part + rest) + epilogue == d + (CRLF + (part + (rest + epilogue)))
  {
    Regroup(d + CRLF + part, rest, epilogue);
    Regroup(d + CRLF, part, rest + epilogue);
    Regroup(d, CRLF, part + (rest + epilogue));
  }

  /** One turn of the reader. */
  lemma Cut(boundary: seq<byte>, first: seq<byte>, after: seq<byte>, more: seq<byte>)
    requires CR !in boundary && !Contains(first, Delimiter(boundary))
    requires after == CRLF + more || At(after, 0, DASHES)
    ensures At(after, 0, DASHES) ==> ReadParts(boundary, first + (Delimiter(boundary) + after)) == Some([first])
    ensures after == CRLF + more ==>
              (ReadParts(boundary, first + (Delimiter(boundary) + after))
               == if ReadParts(boundary, more).Some? then Some([first] + ReadParts(boundary, more).value) else None)
  {
    FirstDelimiter(boundary, first, after);
    Regroup(first, Delimiter(boundary), after);
    hide Delimiter, Contains, Search;
    CutAt(first, Delimiter(boundary), after);
    if after == CRLF + more {
      assert after[..2][0] == CR;
      assert !At(after, 0, DASHES) by { assert DASHES[0] == DASH; }
      assert At(after, 0, CRLF) && after[2..] == more;
    }
  }

  lemma CutAt(a: seq<byte>, b: seq<byte>, c: seq<byte>)
    ensures (a + b + c)[..|a|] == a && (a + b + c)[|a| + |b|..] == c
  {
  }

  /** A multipart body whose parts do not contain the delimiter is read back, whatever its epilogue. */
  lemma ReadsBody(boundary: seq<byte>, parts: seq<seq<byte>>, epilogue: seq<byte>)
    requires parts != [] && CR !in boundary && forall i | 0 <= i < |parts| :: !Contains(parts[i], Delimiter(boundary))
    ensures ReadMultipart(boundary, MultipartBody(boundary, parts) + epilogue) == Some(parts)
  {
    var opening, rest := DashBoundary(boundary) + CRLF, Encapsulations(boundary, parts[1..]);
    hide DashBoundary, Encapsulations, Contains, Delimiter;
    ReadsParts(boundary, parts[0], parts[1..], epilogue);
    assert [parts[0]] + parts[1..] == parts;
    Regroup(opening + parts[0], rest, epilogue);
    Regroup(opening, parts[0], rest + epilogue);
    Open(boundary, opening, parts[0] + (rest + epilogue));
  }

  /** A form whose parts do not contain the delimiter can be read back: the same parts in the same order. */
  lemma ReadsBack(boundary: seq<byte>, ms: seq<Marked>)
    requires ms != [] && Plain(ms) && CR !in boundary
    requires forall i | 0 <= i < |ms| :: !Contains(BodyPart(ms[i].part), Delimiter(boundary))
    ensures ReadMultipart(boundary, EncParts(boundary, Mark(ms))) == Some(Bodies(ms))
  {
    FollowsGrammar(boundary, ms);
    PartsAreBodies(boundary, ms);
    hide EncParts, Bodies, BodyPart, Contains, Delimiter, Mark, Plain, MultipartBody;
    ReadsBody(boundary, Bodies(ms), []);
    assert MultipartBody(boundary, Bodies(ms)) + [] == MultipartBody(boundary, Bodies(ms));
  }

  lemma Open(boundary: seq<byte>, opening: seq<byte>, rest: seq<byte>)
    requires opening == DashBoundary(boundary) + CRLF
    ensures ReadMultipart(boundary, opening + rest) == ReadParts(boundary, rest)
  {
    hide ReadParts;
    var s := opening + rest;
    assert At(s, 0, opening) && s[|opening|..] == rest;
  }

  lemma {:induction false} PartsAreBodies(boundary: seq<byte>, ms: seq<Marked>)
    requires forall i | 0 <= i < |ms| :: !Contains(BodyPart(ms[i].part), Delimiter(boundary))
    ensures forall i | 0 <= i < |Bodies(ms)| :: !Contains(Bodies(ms)[i], Delimiter(boundary))
  {
    hide Contains, BodyPart, Delimiter;
    if ms != [] {
      PartsAreBodies(boundary, ms[1..]);
    }
  }

  // ----- encoding a second time -----

  /** Equal but for final flags that the others do not have. */
  predicate MoreFinals(ms: seq<Marked>, others: seq<Marked>) {
    |ms| == |others| && forall i | 0 <= i < |ms| :: ms[i] == others[i] || ms[i] == others[i].(final := true)
  }

  lemma {:induction false} NoShorter(boundary: seq<byte>, ms: seq<Marked>, others: seq<Marked>)
    requires MoreFinals(ms, others)
    ensures |EncParts(boundary, ms)| >= |EncParts(boundary, others)|
  {
    if ms != [] {
      NoShorter(boundary, ms[1..], others[1..]);
      EncPartLength(boundary, ms[0]);
      EncPartLength(boundary, others[0]);
      hide EncPart, HeaderData, MoreFinals;
    }
  }

  /** A final flag more makes the encoding longer. */
  lemma {:induction false} Longer(boundary: seq<byte>, ms: seq<Marked>, others: seq<Marked>, i: nat)
    requires MoreFinals(ms, others) && i < |ms| && ms[i].final && !others[i].final
    ensures |EncParts(boundary, ms)| > |EncParts(boundary, others)|
  {
    EncPartLength(boundary, ms[0]);
    EncPartLength(boundary, others[0]);
    assert ms[0] == others[0] || ms[0] == others[0].(final := true);
    assert MoreFinals(ms[1..], others[1..]);
    hide EncPart, HeaderData, MoreFinals;
    if i == 0 {
      NoShorter(boundary, ms[1..], others[1..]);
    } else {
      Longer(boundary, ms[1..], others[1..], i - 1);
    }
  }

  lemma EncPartLength(boundary: seq<byte>, m: Marked)
    ensures |EncPart(boundary, m)| + (if m.initial then 2 else 0)
         == |boundary| + 6 + |HeaderData(m.part.headers)| + |m.part.body| + if m.final then |boundary| + 8 else 0
  {
    hide HeaderData;
  }

  /** The flags stay set. An encoding is a multipart body of all its parts exactly if no part but the last
    * has the final one: not when parts have been appended after an earlier encoding. */
  lemma FollowsGrammarUnlessEncodedBefore(boundary: seq<byte>, ms: seq<Marked>)
    requires ms != [] && forall i | 0 < i < |ms| :: !ms[i].initial
    ensures EncParts(boundary, Mark(ms)) == MultipartBody(boundary, Bodies(ms))
       <==> forall i | 0 <= i < |ms| - 1 :: !ms[i].final
  {
    var plain := seq(|ms|, i requires 0 <= i < |ms| => ms[i].(initial := false, final := false));
    FollowsGrammar(boundary, plain);
    SameBodies(ms, plain);
    MarkedAgain(ms, plain);
    hide EncParts, MultipartBody, Bodies, Mark, MoreFinals;
    if i: nat :| i < |ms| - 1 && ms[i].final {
      Longer(boundary, Mark(ms), Mark(plain), i);
    }
  }

  lemma MarkedAgain(ms: seq<Marked>, plain: seq<Marked>)
    requires ms != [] && |ms| == |plain| && Plain(plain) && forall i | 0 < i < |ms| :: !ms[i].initial
    requires forall i | 0 <= i < |ms| :: plain[i].part == ms[i].part
    ensures MoreFinals(Mark(ms), Mark(plain))
    ensures (forall i | 0 <= i < |ms| - 1 :: !ms[i].final) ==> Mark(ms) == Mark(plain)
    ensures forall i | 0 <= i < |ms| - 1 && ms[i].final :: Mark(ms)[i].final && !Mark(plain)[i].final
  {
  }

  lemma {:induction false} EncPartsSplit(boundary: seq<byte>, ms: seq<Marked>, n: nat)
    requires n <= |ms|
    ensures EncParts(boundary, ms) == EncParts(boundary, ms[..n]) + EncParts(boundary, ms[n..])
    decreases n
  {
    hide EncPart;
    if n == 0 {
      assert ms[0..] == ms;
    } else {
      EncPartsSplit(boundary, ms[1..], n - 1);
      assert ms[1..][..n - 1] == ms[..n][1..] && ms[1..][n - 1..] == ms[n..];
      Regroup(EncPart(boundary, ms[0]), EncParts(boundary, ms[..n][1..]), EncParts(boundary, ms[n..]));
    }
  }

  /** Part k is the first that will have the final flag. */
  ghost predicate FirstFinal(ms: seq<Marked>, k: nat) {
    k < |ms| && Mark(ms)[k].final && forall i | 0 <= i < k :: !Mark(ms)[i].final
  }

  /** An encoding is a multipart body of the parts up to the first with the final flag. The parts behind it
    * have fallen into the epilogue. */
  lemma LaterPartsInEpilogue(boundary: seq<byte>, ms: seq<Marked>, k: nat)
    requires FirstFinal(ms, k) && forall i | 0 < i < |ms| :: !ms[i].initial
    ensures EncParts(boundary, Mark(ms))
         == MultipartBody(boundary, Bodies(ms[..k + 1])) + EncParts(boundary, Mark(ms)[k + 1..])
  {
    var plain := PlainUpTo(ms, k);
    hide Mark, EncParts, Bodies, MultipartBody, Plain;
    EncPartsSplit(boundary, Mark(ms), k + 1);
    FollowsGrammar(boundary, plain);
    SameBodies(plain, ms[..k + 1]);
  }

  lemma PlainUpTo(ms: seq<Marked>, k: nat) returns (plain: seq<Marked>)
    requires FirstFinal(ms, k) && forall i | 0 < i < |ms| :: !ms[i].initial
    ensures Plain(plain) && |plain| == k + 1 && Mark(plain) == Mark(ms)[..k + 1]
    ensures forall i | 0 <= i <= k :: plain[i].part == ms[..k + 1][i].part
  {
    plain := seq(k + 1, i requires 0 <= i <= k => ms[i].(initial := false, final := false));
    forall i | 0 <= i <= k
      ensures Mark(plain)[i] == Mark(ms)[i]
    {
      assert !Mark(ms)[i].final <==> i < k;
    }
  }

  /** So a reader gets just those: all parts exactly if no part but the last had the flag before. */
  lemma LaterPartsAreLost(boundary: seq<byte>, ms: seq<Marked>, k: nat)
    requires FirstFinal(ms, k) && (forall i | 0 < i < |ms| :: !ms[i].initial) && CR !in boundary
    requires forall i | 0 <= i <= k :: !Contains(BodyPart(ms[i].part), Delimiter(boundary))
    ensures ReadMultipart(boundary, EncParts(boundary, Mark(ms))) == Some(Bodies(ms[..k + 1]))
    ensures ReadMultipart(boundary, EncParts(boundary, Mark(ms))) == Some(Bodies(ms))
       <==> forall i | 0 <= i < |ms| - 1 :: !ms[i].final
  {
    LaterPartsInEpilogue(boundary, ms, k);
    PartsAreBodies(boundary, ms[..k + 1]);
    FirstFinalIs(ms, k);
    hide Mark, EncParts, BodyPart, MultipartBody, Contains, Delimiter, FirstFinal;
    ReadsBody(boundary, Bodies(ms[..k + 1]), EncParts(boundary, Mark(ms)[k + 1..]));
    if k + 1 == |ms| {
      assert ms[..k + 1] == ms;
    }
  }

  lemma FirstFinalIs(ms: seq<Marked>, k: nat)
    requires FirstFinal(ms, k)
    ensures k + 1 == |ms| <==> forall i | 0 <= i < |ms| - 1 :: !ms[i].final
  {
    if k + 1 < |ms| {
      assert ms[k].final;
    } else {
      forall i | 0 <= i < |ms| - 1
        ensures !ms[i].final
      {
        assert !Mark(ms)[i].final;
      }
    }
  }
}
