/** Reading the parts of a form down to their headers, and an encoding byte by byte. */
module PartHeaders {
  import opened Options
  import opened Varints
  import opened Multipart

  /** Headers that a line can hold. */
  predicate Clean(headers: seq<(seq<byte>, seq<byte>)>) {
    forall i | 0 <= i < |headers| :: 13 !in headers[i].0 && 58 !in headers[i].0 && 13 !in headers[i].1
  }

  // ----- one part -----

  /** Cuts the lines of a body part at CR LF, up to the empty one, and each of them at its first colon and
    * space. What comes behind the empty line is the body. */
  function ReadPart(s: seq<byte>): (r: Option<Part>)
    decreases |s|
  {
    match Search(s, [13, 10], 0)
    case None => None
    case Some(i) =>
      var line, rest := s[..i], s[i + 2..];
      if line == [] then Some(Part([], rest))
      else
        match Search(line, [58, 32], 0)
        case None => None
        case Some(j) =>
          match ReadPart(rest)
          case None => None
          case Some(p) => Some(p.(headers := [(line[..j], line[j + 2..])] + p.headers))
  }

  lemma FoundAtOnce(a: seq<byte>, pattern: seq<byte>, rest: seq<byte>)
    requires pattern != [] && pattern[0] !in a
    ensures Search(a + pattern + rest, pattern, 0) == Some(|a|)
  {
    var s := a + pattern + rest;
    assert At(s, |a|, pattern);
    forall i: nat | i < |a|
      ensures !At(s, i, pattern)
    {
      assert i + |pattern| <= |s| ==> s[i..i + |pattern|][0] == a[i];
    }
  }

  /** One line of the reader. */
  lemma ReadsLine(key: seq<byte>, value: seq<byte>, rest: seq<byte>)
    requires 13 !in key && 58 !in key && 13 !in value
    ensures ReadPart(key + COLON + value + CRLF + rest)
         == match ReadPart(rest)
            case None => None
            case Some(p) => Some(p.(headers := [(key, value)] + p.headers))
  {
    var line := key + COLON + value;
    var s := line + CRLF + rest;
    FoundAtOnce(line, CRLF, rest);
    FoundAtOnce(key, COLON, value);
    hide Search;
    assert s[..|line|] == line && s[|line| + 2..] == rest;
    assert line[..|key|] == key && line[|key| + 2..] == value;
  }

  lemma ReadsEmptyLine(body: seq<byte>)
    ensures ReadPart(CRLF + body) == Some(Part([], body))
  {
    FoundAtOnce([], CRLF, body);
    assert [] + CRLF + body == CRLF + body;
    hide Search;
    assert (CRLF + body)[2..] == body;
  }

  lemma FirstLine(p: Part)
    requires p.headers != []
    ensures BodyPart(p)
         == p.headers[0].0 + COLON + p.headers[0].1 + CRLF + BodyPart(Part(p.headers[1..], p.body))
  {
    var line := p.headers[0].0 + COLON + p.headers[0].1 + CRLF;
    assert HeaderLines(p.headers) == line + HeaderLines(p.headers[1..]);
    hide HeaderLines;
    assert line + HeaderLines(p.headers[1..]) + CRLF + p.body == line + (HeaderLines(p.headers[1..]) + CRLF + p.body);
  }

  /** The headers of a part are read back one by one, and its body. */
  lemma {:induction false} ReadsPart(p: Part)
    requires Clean(p.headers)
    ensures ReadPart(BodyPart(p)) == Some(p)
    decreases |p.headers|
  {
    if p.headers == [] {
      ReadsEmptyLine(p.body);
      assert HeaderData([]) == CRLF;
    } else {
      var first, tail := p.headers[0], Part(p.headers[1..], p.body);
      assert Clean(tail.headers) && first == (first.0, first.1);
      assert 13 !in first.0 && 58 !in first.0 && 13 !in first.1;
      hide *;
      ReadsPart(tail);
      ReadsLine(first.0, first.1, BodyPart(tail));
      FirstLine(p);
      assert [first] + tail.headers == p.headers;
    }
  }

  lemma ReadsHead(headers: seq<(seq<byte>, seq<byte>)>)
    requires Clean(headers)
    ensures ReadPart(HeaderData(headers)) == Some(Part(headers, []))
  {
    ReadsPart(Part(headers, []));
    assert BodyPart(Part(headers, [])) == HeaderData(headers);
    hide ReadPart;
  }

  // ----- a form -----

  /** Reads a form: its parts, and in each its headers. */
  function ReadForm(boundary: seq<byte>, s: seq<byte>): Option<seq<Part>> {
    match ReadMultipart(boundary, s)
    case None => None
    case Some(bodies) => ReadAll(bodies)
  }

  function ReadAll(bodies: seq<seq<byte>>): Option<seq<Part>> {
    if bodies == [] then Some([])
    else
      match (ReadPart(bodies[0]), ReadAll(bodies[1..]))
      case (Some(p), Some(ps)) => Some([p] + ps)
      case _ => None
  }

  function Parts(ms: seq<Marked>): seq<Part> {
    seq(|ms|, i requires 0 <= i < |ms| => ms[i].part)
  }

  lemma {:induction false} ReadsAll(ms: seq<Marked>)
    requires forall i | 0 <= i < |ms| :: Clean(ms[i].part.headers)
    ensures ReadAll(Bodies(ms)) == Some(Parts(ms))
    decreases |ms|
  {
    if ms != [] {
      ReadsPart(ms[0].part);
      ReadsAll(ms[1..]);
      hide ReadPart, BodyPart, Clean;
      assert Bodies(ms)[1..] == Bodies(ms[1..]);
      assert [ms[0].part] + Parts(ms[1..]) == Parts(ms);
    }
  }

  /** A form is read back from its encoding: the same parts with the same headers and bodies. */
  lemma ReadsForm(boundary: seq<byte>, ms: seq<Marked>)
    requires ms != [] && Plain(ms) && CR !in boundary
    requires forall i | 0 <= i < |ms| :: !Contains(BodyPart(ms[i].part), Delimiter(boundary))
    requires forall i | 0 <= i < |ms| :: Clean(ms[i].part.headers)
    ensures ReadForm(boundary, EncParts(boundary, Mark(ms))) == Some(Parts(ms))
  {
    ReadsBack(boundary, ms);
    ReadsAll(ms);
    hide ReadAll, ReadMultipart, EncParts, Mark, Bodies, Parts;
  }

  // ----- byte by byte -----

  function Ascii(text: string): (bs: seq<byte>)
    requires forall i | 0 <= i < |text| :: text[i] < 128 as char
  {
    seq(|text|, i requires 0 <= i < |text| => text[i] as int)
  }

  /** A form of two parts, as it goes over the wire. */
  lemma TwoParts(ms: seq<Marked>)
    requires ms == [Marked(Part([(Ascii("A"), Ascii("1")), (Ascii("C"), Ascii("2"))], Ascii("x")), false, false),
                    Marked(Part([(Ascii("A"), Ascii("3"))], Ascii("yz")), false, false)]
    ensures EncParts(Ascii("B"), Mark(ms))
         == Ascii("--B\r\nA: 1\r\nC: 2\r\n\r\nx") + Ascii("\r\n--B\r\nA: 3\r\n\r\nyz\r\n--B--\r\n")
  {
    var b, first, second := Ascii("B"), ms[0].(initial := true), ms[1].(final := true);
    assert Mark(ms) == [first, second];
    HeaderText(first.part.headers, second.part.headers);
    hide Mark, HeaderData;
    FirstBytes(first);
    SecondBytes(second);
    hide EncPart, Ascii;
    assert EncParts(b, [second]) == EncPart(b, second) by {
      assert EncParts(b, [second]) == EncPart(b, second) + EncParts(b, [second][1..]);
    }
    assert [first, second][1..] == [second];
  }

  lemma FirstBytes(m: Marked)
    requires HeaderData(m.part.headers) == Ascii("A: 1\r\nC: 2\r\n\r\n") && m.part.body == Ascii("x")
    requires m.initial && !m.final
    ensures EncPart(Ascii("B"), m) == Ascii("--B\r\nA: 1\r\nC: 2\r\n\r\nx")
  {
    hide HeaderData;
    assert BoundaryData(INITIAL, Ascii("B")) == Ascii("--B\r\n");
    hide BoundaryData;
    assert EncPart(Ascii("B"), m) == Ascii("--B\r\n") + Ascii("A: 1\r\nC: 2\r\n\r\n") + Ascii("x") + [];
  }

  lemma SecondBytes(m: Marked)
    requires HeaderData(m.part.headers) == Ascii("A: 3\r\n\r\n") && m.part.body == Ascii("yz")
    requires !m.initial && m.final
    ensures EncPart(Ascii("B"), m) == Ascii("\r\n--B\r\nA: 3\r\n\r\nyz\r\n--B--\r\n")
  {
    hide HeaderData;
    assert BoundaryData(ENCAPSULATED, Ascii("B")) == Ascii("\r\n--B\r\n");
    assert BoundaryData(FINAL, Ascii("B")) == Ascii("\r\n--B--\r\n");
    hide BoundaryData;
    var head, tail := Ascii("\r\n--B\r\n") + Ascii("A: 3\r\n\r\n"), Ascii("yz") + Ascii("\r\n--B--\r\n");
    assert EncPart(Ascii("B"), m) == head + tail;
    assert head == Ascii("\r\n--B\r\nA: 3\r\n\r\n") && tail == Ascii("yz\r\n--B--\r\n");
  }

  lemma HeaderText(one: seq<(seq<byte>, seq<byte>)>, other: seq<(seq<byte>, seq<byte>)>)
    requires one == [(Ascii("A"), Ascii("1")), (Ascii("C"), Ascii("2"))] && other == [(Ascii("A"), Ascii("3"))]
    ensures HeaderData(one) == Ascii("A: 1\r\nC: 2\r\n\r\n") && HeaderData(other) == Ascii("A: 3\r\n\r\n")
  {
    assert one[1..] == [one[1]] && one[1..][1..] == [] && other[1..] == [];
    assert HeaderLines(other) == Ascii("A: 3\r\n");
    assert HeaderLines(one[1..]) == Ascii("C: 2\r\n");
    assert HeaderLines(one) == Ascii("A: 1\r\n") + HeaderLines(one[1..]);
  }
}
