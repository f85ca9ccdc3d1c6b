/** A reader of DNS messages, from section 4.1 of RFC 1035: the header, then the question, answer,
    authority and additional sections, with uncompressed names, and nothing left over. */
module DnsMessage {
  import opened Bytes

  type Name = seq<seq<byte>>

  datatype Question = Question(name: Name, qtype: word, qclass: word)
  datatype Record = Record(name: Name, rtype: word, rclass: word, ttl: seq<byte>, rdata: seq<byte>)
  datatype Message = Message(
    id: word, flags1: byte, flags2: byte, questions: seq<Question>,
    answers: seq<Record>, authority: seq<Record>, additional: seq<Record>)

  /** A value read from the front of some bytes, and how many of them it took. */
  datatype Parsed<+T> = Fail | Read(value: T, used: nat)

  const HEADER_BYTES := 12
  const MAX_NAME := 255

  function ParseLabels(s: seq<byte>): (r: Parsed<Name>)
    ensures r.Read? ==> 1 <= r.used <= |s|
  {
    if |s| == 0 then Fail
    else if s[0] == 0 then Read([], 1)
    else if s[0] >= 64 || 1 + s[0] > |s| then Fail
    else
      match ParseLabels(s[1 + s[0]..])
      case Fail => Fail
      case Read(labels, used) => Read([s[1..1 + s[0]]] + labels, 1 + s[0] + used)
  }

  /** Names take at most 255 bytes (section 2.3.4 of RFC 1035). */
  function ParseName(s: seq<byte>): (r: Parsed<Name>)
    ensures r.Read? ==> 1 <= r.used <= |s| && r.used <= MAX_NAME
  {
    var r := ParseLabels(s);
    if r.Read? && r.used > MAX_NAME then Fail else r
  }

  function ParseQuestion(s: seq<byte>): (r: Parsed<Question>)
    ensures r.Read? ==> 5 <= r.used <= |s| && r.used <= MAX_NAME + 4
  {
    match ParseName(s)
    case Fail => Fail
    case Read(name, u) =>
      if u + 4 > |s| then Fail
      else Read(Question(name, Net16At(s, u), Net16At(s, u + 2)), u + 4)
  }

  function ParseRecord(s: seq<byte>): (r: Parsed<Record>)
    ensures r.Read? ==> 11 <= r.used <= |s|
  {
    match ParseName(s)
    case Fail => Fail
    case Read(name, u) =>
      if u + 10 > |s| then Fail
      else
        var n := Net16At(s, u + 8);
        if u + 10 + n > |s| then Fail
        else Read(Record(name, Net16At(s, u), Net16At(s, u + 2), s[u + 4..u + 8],
                         s[u + 10..u + 10 + n]), u + 10 + n)
  }

  function ParseQuestions(s: seq<byte>, count: nat): (r: Parsed<seq<Question>>)
    ensures r.Read? ==> r.used <= |s| && |r.value| == count
  {
    if count == 0 then Read([], 0)
    else
      match ParseQuestion(s)
      case Fail => Fail
      case Read(q, u) =>
        match ParseQuestions(s[u..], count - 1)
        case Fail => Fail
        case Read(qs, v) => Read([q] + qs, u + v)
  }

  function ParseRecords(s: seq<byte>, count: nat): (r: Parsed<seq<Record>>)
    ensures r.Read? ==> r.used <= |s| && |r.value| == count && 11 * count <= r.used
  {
    if count == 0 then Read([], 0)
    else
      match ParseRecord(s)
      case Fail => Fail
      case Read(x, u) =>
        match ParseRecords(s[u..], count - 1)
        case Fail => Fail
        case Read(xs, v) => Read([x] + xs, u + v)
  }

  datatype Answers = Answers(answers: seq<Record>, authority: seq<Record>)

  function ParseAnswers(s: seq<byte>, an: nat, ns: nat): (r: Parsed<Answers>)
    ensures r.Read? ==> r.used <= |s|
  {
    match ParseRecords(s, an)
    case Fail => Fail
    case Read(answers, u) =>
      match ParseRecords(s[u..], ns)
      case Fail => Fail
      case Read(authority, v) => Read(Answers(answers, authority), u + v)
  }

  datatype Sections = Sections(questions: seq<Question>, answers: Answers)

  /** The sections before the additional one. */
  function ParseSections(s: seq<byte>, qd: nat, an: nat, ns: nat): (r: Parsed<Sections>)
    ensures r.Read? ==> r.used <= |s|
  {
    match ParseQuestions(s, qd)
    case Fail => Fail
    case Read(questions, u) =>
      match ParseAnswers(s[u..], an, ns)
      case Fail => Fail
      case Read(answers, v) => Read(Sections(questions, answers), u + v)
  }

  datatype Body = Body(front: Sections, additional: seq<Record>)

  /** The additional section after the others; nothing may be left over. */
  function ParseRest(front: Parsed<Sections>, s: seq<byte>, ar: nat): Option<Body>
    requires front.Read? ==> front.used <= |s|
  {
    match front
    case Fail => None
    case Read(sections, u) =>
      match ParseRecords(s[u..], ar)
      case Fail => None
      case Read(additional, v) => if u + v == |s| then Some(Body(sections, additional)) else None
  }

  function ParseBody(s: seq<byte>, qd: nat, an: nat, ns: nat, ar: nat): Option<Body> {
    ParseRest(ParseSections(s, qd, an, ns), s, ar)
  }

  function ParseMessage(b: seq<byte>): Option<Message> {
    if |b| < HEADER_BYTES then None
    else
      match ParseBody(b[HEADER_BYTES..], Net16At(b, 4), Net16At(b, 6), Net16At(b, 8), Net16At(b, 10))
      case None => None
      case Some(body) =>
        Some(Message(Net16At(b, 0), b[2], b[3], body.front.questions,
                     body.front.answers.answers, body.front.answers.authority, body.additional))
  }

  // What was read does not depend on what follows.

  lemma {:induction false} LabelsExtend(s: seq<byte>, t: seq<byte>)
    requires ParseLabels(s).Read?
    ensures ParseLabels(s + t) == ParseLabels(s)
  {
    if s[0] != 0 {
      var k := 1 + s[0];
      assert (s + t)[k..] == s[k..] + t;
      LabelsExtend(s[k..], t);
      assert (s + t)[1..k] == s[1..k];
    }
  }

  lemma QuestionExtend(s: seq<byte>, t: seq<byte>)
    requires ParseQuestion(s).Read?
    ensures ParseQuestion(s + t) == ParseQuestion(s)
  {
    hide ParseLabels;
    LabelsExtend(s, t);
  }

  lemma RecordExtend(s: seq<byte>, t: seq<byte>)
    requires ParseRecord(s).Read?
    ensures ParseRecord(s + t) == ParseRecord(s)
  {
    hide ParseLabels;
    LabelsExtend(s, t);
    var u := ParseName(s).used;
    var n := Net16At(s, u + 8);
    assert (s + t)[u + 4..u + 8] == s[u + 4..u + 8];
    assert (s + t)[u + 10..u + 10 + n] == s[u + 10..u + 10 + n];
  }

  lemma {:induction false} QuestionsExtend(s: seq<byte>, t: seq<byte>, count: nat)
    requires ParseQuestions(s, count).Read?
    ensures ParseQuestions(s + t, count) == ParseQuestions(s, count)
    decreases count
  {
    hide ParseQuestion;
    if count > 0 {
      QuestionExtend(s, t);
      var u := ParseQuestion(s).used;
      assert (s + t)[u..] == s[u..] + t;
      QuestionsExtend(s[u..], t, count - 1);
    }
  }

  lemma {:induction false} RecordsExtend(s: seq<byte>, t: seq<byte>, count: nat)
    requires ParseRecords(s, count).Read?
    ensures ParseRecords(s + t, count) == ParseRecords(s, count)
    decreases count
  {
    hide ParseRecord;
    if count > 0 {
      RecordExtend(s, t);
      var u := ParseRecord(s).used;
      assert (s + t)[u..] == s[u..] + t;
      RecordsExtend(s[u..], t, count - 1);
    }
  }

  lemma AnswersExtend(s: seq<byte>, t: seq<byte>, an: nat, ns: nat)
    requires ParseAnswers(s, an, ns).Read?
    ensures ParseAnswers(s + t, an, ns) == ParseAnswers(s, an, ns)
  {
    hide ParseRecords;
    var a := ParseRecords(s, an);
    assert ParseRecords(s + t, an) == a by { RecordsExtend(s, t, an); }
    var rest := s[a.used..];
    assert (s + t)[a.used..] == rest + t;
    var b := ParseRecords(rest, ns);
    assert ParseRecords(rest + t, ns) == b by { RecordsExtend(rest, t, ns); }
    assert ParseAnswers(s, an, ns) == Read(Answers(a.value, b.value), a.used + b.used);
  }

  lemma SectionsExtend(s: seq<byte>, t: seq<byte>, qd: nat, an: nat, ns: nat)
    requires ParseSections(s, qd, an, ns).Read?
    ensures ParseSections(s + t, qd, an, ns) == ParseSections(s, qd, an, ns)
  {
    hide ParseQuestions, ParseAnswers;
    var a := ParseQuestions(s, qd);
    assert ParseQuestions(s + t, qd) == a by { QuestionsExtend(s, t, qd); }
    var rest := s[a.used..];
    assert (s + t)[a.used..] == rest + t;
    var b := ParseAnswers(rest, an, ns);
    assert ParseAnswers(rest + t, an, ns) == b by { AnswersExtend(rest, t, an, ns); }
    assert ParseSections(s, qd, an, ns) == Read(Sections(a.value, b.value), a.used + b.used);
  }

  // Writing a query, as `res_mkquery` is documented to do.

  predicate ValidName(name: Name) {
    (forall i :: 0 <= i < |name| ==> 1 <= |name[i]| < 64) && |EncodeLabels(name)| <= MAX_NAME
  }

  function EncodeLabels(name: Name): (s: seq<byte>)
    requires forall i :: 0 <= i < |name| ==> |name[i]| < 64
  {
    if name == [] then [0] else [|name[0]|] + name[0] + EncodeLabels(name[1..])
  }

  function EncodeQuery(id: word, flags1: byte, flags2: byte, q: Question): seq<byte>
    requires ValidName(q.name)
  {
    Net16(id) + [flags1, flags2] + Net16(1) + [0, 0, 0, 0, 0, 0]
    + (EncodeLabels(q.name) + (Net16(q.qtype) + Net16(q.qclass)))
  }

  lemma {:induction false} LabelsRoundTrip(name: Name, t: seq<byte>)
    requires forall i :: 0 <= i < |name| ==> 1 <= |name[i]| < 64
    ensures ParseLabels(EncodeLabels(name) + t) == Read(name, |EncodeLabels(name)|)
    decreases |name|
  {
    var s := EncodeLabels(name) + t;
    if name != [] {
      var k := 1 + |name[0]|;
      assert s[k..] == EncodeLabels(name[1..]) + t;
      assert s[1..k] == name[0];
      LabelsRoundTrip(name[1..], t);
      assert [name[0]] + name[1..] == name;
    }
  }

  lemma QuestionRoundTrip(q: Question)
    requires ValidName(q.name)
    ensures var s := EncodeLabels(q.name) + (Net16(q.qtype) + Net16(q.qclass));
            ParseQuestions(s, 1) == Read([q], |s|)
  {
    hide EncodeLabels;
    var e, t := EncodeLabels(q.name), Net16(q.qtype) + Net16(q.qclass);
    LabelsRoundTrip(q.name, t);
    var s := e + t;
    assert Net16At(s, |e|) == q.qtype && Net16At(s, |e| + 2) == q.qclass;
    assert ParseQuestion(s) == Read(q, |s|);
    assert ParseQuestions(s[|s|..], 0) == Read([], 0);
    assert [q] + [] == [q];
  }

  /** Reading an encoded query gives back its ID, flags and question: every query for a valid name is a
      plain query, and different queries are different messages. */
  lemma QueryRoundTrip(id: word, flags1: byte, flags2: byte, q: Question)
    requires ValidName(q.name)
    ensures ParseMessage(EncodeQuery(id, flags1, flags2, q))
            == Some(Message(id, flags1, flags2, [q], [], [], []))
    ensures PlainQuery(EncodeQuery(id, flags1, flags2, q))
  {
    hide EncodeLabels, EncodeQuery, ParseBody;
    QueryParts(id, flags1, flags2, q);
    QuestionRoundTrip(q);
    QuestionAlone(EncodeLabels(q.name) + (Net16(q.qtype) + Net16(q.qclass)), q);
  }

  lemma QueryParts(id: word, flags1: byte, flags2: byte, q: Question)
    requires ValidName(q.name)
    ensures var b := EncodeQuery(id, flags1, flags2, q);
            && |b| >= HEADER_BYTES
            && b[HEADER_BYTES..] == EncodeLabels(q.name) + (Net16(q.qtype) + Net16(q.qclass))
            && Net16At(b, 0) == id && b[2] == flags1 && b[3] == flags2
            && Net16At(b, 4) == 1 && Net16At(b, 6) == 0 && Net16At(b, 8) == 0 && Net16At(b, 10) == 0
  {
    hide EncodeLabels;
  }

  lemma QuestionAlone(s: seq<byte>, q: Question)
    requires ParseQuestions(s, 1) == Read([q], |s|)
    ensures ParseBody(s, 1, 0, 0, 0) == Some(Body(Sections([q], Answers([], [])), []))
  {
    hide ParseQuestions, ParseAnswers, ParseRecords;
    var rest := s[|s|..];
    NothingLeft(rest);
    assert ParseSections(s, 1, 0, 0) == Read(Sections([q], Answers([], [])), |s|);
  }

  lemma NothingLeft(s: seq<byte>)
    requires |s| == 0
    ensures ParseRecords(s, 0) == Read([], 0)
    ensures ParseAnswers(s, 0, 0) == Read(Answers([], []), 0)
  {
    assert s[0..] == s;
  }

  /** A message with one question and no records, as `res_mkquery` makes them. */
  predicate PlainQuery(b: seq<byte>) {
    var m := ParseMessage(b);
    m.Some? && |m.value.questions| == 1
    && m.value.answers == [] && m.value.authority == [] && m.value.additional == []
  }

  /** Such a message is short: a header, a name of at most 255 bytes, a type and a class. */
  lemma PlainQueryIsShort(b: seq<byte>)
    requires PlainQuery(b)
    ensures 17 <= |b| <= 271
  {
    hide ParseBody, Net16At;
    BodyLength(b[HEADER_BYTES..], Net16At(b, 4), Net16At(b, 6), Net16At(b, 8), Net16At(b, 10));
  }

  lemma BodyLength(s: seq<byte>, qd: nat, an: nat, ns: nat, ar: nat)
    requires ParseBody(s, qd, an, ns, ar).Some?
    requires var body := ParseBody(s, qd, an, ns, ar).value;
             |body.front.questions| == 1 && body.front.answers == Answers([], [])
             && body.additional == []
    ensures 5 <= |s| <= MAX_NAME + 4
  {
    hide ParseSections, ParseRecords;
    var front := ParseSections(s, qd, an, ns);
    SectionsLength(s, qd, an, ns);
    NoRecords(s[front.used..], ar);
  }

  lemma SectionsLength(s: seq<byte>, qd: nat, an: nat, ns: nat)
    requires ParseSections(s, qd, an, ns).Read?
    requires var front := ParseSections(s, qd, an, ns).value;
             |front.questions| == 1 && front.answers == Answers([], [])
    ensures 5 <= ParseSections(s, qd, an, ns).used <= MAX_NAME + 4
  {
    hide ParseQuestions, ParseAnswers;
    QuestionLength(s, qd);
    NoAnswers(s[ParseQuestions(s, qd).used..], an, ns);
  }

  lemma NoAnswers(s: seq<byte>, an: nat, ns: nat)
    requires ParseAnswers(s, an, ns).Read?
    requires ParseAnswers(s, an, ns).value == Answers([], [])
    ensures ParseAnswers(s, an, ns).used == 0
  {
    hide ParseRecords;
    NoRecords(s, an);
    NoRecords(s[ParseRecords(s, an).used..], ns);
  }

  lemma QuestionLength(s: seq<byte>, count: nat)
    requires count == 1 && ParseQuestions(s, count).Read?
    ensures 5 <= ParseQuestions(s, count).used <= MAX_NAME + 4
  {
    var u := ParseQuestion(s).used;
    assert ParseQuestions(s[u..], count - 1).used == 0;
  }

  lemma NoRecords(s: seq<byte>, count: nat)
    ensures ParseRecords(s, count).Read? && ParseRecords(s, count).value == [] ==>
              count == 0 && ParseRecords(s, count).used == 0
  {
  }
}
