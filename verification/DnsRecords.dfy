/** The daemon's own answers, and an independent decoder of answer sections that
    follows compression pointers (section 4.1.4 of RFC 1035). */
module DnsRecords {
  import opened Bytes
  import opened Net
  import opened DnsMessage

  // ---- Building --------------------------------------------------------------

  /** The addresses that answer a question type (AAAA: section 2.2 of RFC 3596). */
  function Matching(addrs: seq<Ip>, qtype: U16): (r: seq<Ip>)
    ensures |r| <= |addrs| && AllOfFamily(r, qtype == TYPE_AAAA)
  {
    if qtype == TYPE_A then OfFamily(addrs, false)
    else if qtype == TYPE_AAAA then OfFamily(addrs, true)
    else []
  }

  /** How many bytes so many records take. */
  function RecordsLen(qtype: U16, count: nat): nat {
    if qtype == TYPE_AAAA then 28 * count else 16 * count
  }

  function Be32(x: nat): seq<Byte>
    requires x < 0x1_0000_0000
  {
    Be16(x / 0x1_0000) + Be16(x % 0x1_0000)
  }

  /** One resource record: a pointer to the question's name, then the address. */
  function RecordBytes(qtype: U16, a: Ip): (r: seq<Byte>)
    ensures |r| == 12 + |a.Octets()|
  {
    [0xC0, 12] + Be16(qtype) + Be16(CLASS_IN) + Be32(ANSWER_TTL) + Be16(|a.Octets()|) + a.Octets()
  }

  function AllRecordBytes(qtype: U16, addrs: seq<Ip>): seq<Byte> {
    if addrs == [] then [] else RecordBytes(qtype, addrs[0]) + AllRecordBytes(qtype, addrs[1..])
  }

  /** `Query::answer`; the 16-bit record count wraps. */
  function Answer(q: Query, addrs: seq<Ip>): seq<Byte>
    requires HEADER_LEN <= q.question.end <= |q.raw|
  {
    var matching := Matching(addrs, q.question.qtype);
    Response(q, RCODE_NOERROR, AllRecordBytes(q.question.qtype, matching), |matching| % 0x1_0000)
  }

  lemma MatchingSnoc(addrs: seq<Ip>, a: Ip, qtype: U16)
    ensures Matching(addrs + [a], qtype) == Matching(addrs, qtype)
              + if (a.V4? && qtype == TYPE_A) || (a.V6? && qtype == TYPE_AAAA) then [a] else []
  {
    OfFamilySnoc(addrs, a, qtype == TYPE_AAAA);
  }

  lemma MatchingNothing(qtype: U16)
    ensures Matching([], qtype) == []
  {
  }

  lemma AllRecordBytesSmall(qtype: U16, a: Ip)
    ensures AllRecordBytes(qtype, []) == [] && AllRecordBytes(qtype, [a]) == RecordBytes(qtype, a)
  {
  }

  method AnswerQuery(q: Query, addrs: seq<Ip>) returns (out: seq<Byte>)
    requires HEADER_LEN <= q.question.end <= |q.raw|
    ensures out == Answer(q, addrs)
  {
    hide RecordBytes, AllRecordBytes, Matching, Response;
    var answers: seq<Byte> := [];
    var count: U16 := 0;
    var qtype := q.question.qtype;
    AllRecordBytesSmall(qtype, V4([0, 0, 0, 0]));
    MatchingNothing(qtype);
    for i := 0 to |addrs|
      invariant answers == AllRecordBytes(qtype, Matching(addrs[..i], qtype))
      invariant count == |Matching(addrs[..i], qtype)| % 0x1_0000
    {
      var addr := addrs[i];
      assert addrs[..i + 1] == addrs[..i] + [addr];
      RecordsSnoc(qtype, addrs[..i], addr);
      if (addr.V4? && qtype == TYPE_A) || (addr.V6? && qtype == TYPE_AAAA) {
        answers := answers + RecordBytes(qtype, addr);
        count := (count + 1) % 0x1_0000;
      }
    }
    assert addrs[..|addrs|] == addrs;
    out := Response(q, RCODE_NOERROR, answers, count);
  }

  lemma RecordsSnoc(qtype: U16, seen: seq<Ip>, a: Ip)
    ensures var before, after := Matching(seen, qtype), Matching(seen + [a], qtype);
      if (a.V4? && qtype == TYPE_A) || (a.V6? && qtype == TYPE_AAAA)
      then |after| == |before| + 1 && AllRecordBytes(qtype, after) == AllRecordBytes(qtype, before) + RecordBytes(qtype, a)
      else after == before
  {
    hide RecordBytes, AllRecordBytes, Matching;
    MatchingSnoc(seen, a, qtype);
    AllRecordBytesAppend(qtype, Matching(seen, qtype), [a]);
    AllRecordBytesSmall(qtype, a);
    assert Matching(seen, qtype) + [] == Matching(seen, qtype);
  }

  // ---- Decoding --------------------------------------------------------------

  datatype Record = Record(owner: seq<seq<Byte>>, rtype: U16, rclass: U16, ttl: nat, rdata: seq<Byte>)

  /** A name read from a message: labels ended by a zero octet, or by a pointer to a
      name that starts before `bound`. */
  function ReadName(msg: seq<Byte>, at: nat, bound: nat): Option<Scan>
    decreases bound, |msg| - at
  {
    if at >= |msg| then None
    else if msg[at] == 0 then Some(Scan([], at + 1))
    else if msg[at] >= 0xC0 then
      match ReadBe16(msg, at)
      case None => None
      case Some(word) =>
        var target := word % 0x4000;
        if target >= bound then None
        else match ReadName(msg, target, target)
          case None => None
          case Some(s) => Some(Scan(s.labels, at + 2))
    else
      var next := at + 1 + msg[at] as int;
      if msg[at] > 63 || next > |msg| then None
      else Prepend([msg[at + 1..next]], ReadName(msg, next, bound))
  }

  datatype Reading = Reading(record: Record, next: nat)

  function ReadRecord(msg: seq<Byte>, at: nat): Option<Reading> {
    match ReadName(msg, at, at)
    case None => None
    case Some(Scan(owner, fields)) =>
      if fields + 10 > |msg| then None
      else
        var rtype, rclass := ReadBe16(msg, fields).value, ReadBe16(msg, fields + 2).value;
        var ttl := ReadBe16(msg, fields + 4).value as int * 0x1_0000 + ReadBe16(msg, fields + 6).value as int;
        var end := fields + 10 + ReadBe16(msg, fields + 8).value;
        if end > |msg| then None
        else Some(Reading(Record(owner, rtype, rclass, ttl, msg[fields + 10..end]), end))
  }

  datatype Section = Section(records: seq<Record>, next: nat)

  /** So many records, one after another. */
  function ReadRecords(msg: seq<Byte>, at: nat, count: nat): Option<Section>
    decreases count
  {
    if count == 0 then Some(Section([], at))
    else match ReadRecord(msg, at)
      case None => None
      case Some(Reading(record, next)) =>
        match ReadRecords(msg, next, count - 1)
        case None => None
        case Some(Section(records, end)) => Some(Section([record] + records, end))
  }

  /** The answer section of a response: as many records as its header announces. */
  function ReadAnswers(msg: seq<Byte>, at: nat): Option<Section>
    requires |msg| >= HEADER_LEN
  {
    ReadRecords(msg, at, ReadBe16(msg, 6).value)
  }

  /** The records the addresses should come back as. */
  function Expected(owner: seq<seq<Byte>>, qtype: U16, addrs: seq<Ip>): (r: seq<Record>)
    ensures |r| == |addrs|
    ensures forall i :: 0 <= i < |r| ==> r[i] == Record(owner, qtype, CLASS_IN, ANSWER_TTL, addrs[i].Octets())
  {
    if addrs == [] then []
    else [Record(owner, qtype, CLASS_IN, ANSWER_TTL, addrs[0].Octets())] + Expected(owner, qtype, addrs[1..])
  }

  // ---- Round trip -------------------------------------------------------------

  /** Without pointers the decoder reads what the question parser reads. */
  lemma {:induction false} ReadNamePlain(msg: seq<Byte>, at: nat, bound: nat, labels: seq<seq<Byte>>)
    requires WireLabels(labels)
    requires at + |EncodeLabels(labels)| < |msg|
    requires msg[at..at + |EncodeLabels(labels)|] == EncodeLabels(labels)
    requires msg[at + |EncodeLabels(labels)|] == 0
    ensures ReadName(msg, at, bound) == Some(Scan(labels, at + |EncodeLabels(labels)| + 1))
    decreases |labels|
  {
    if labels != [] {
      var first, tail := labels[0], labels[1..];
      assert labels == [first] + tail;
      EncodeCons(first, tail);
      PieceParts(msg, at, |first|, first, EncodeLabels(tail));
      ReadNamePlain(msg, at + 1 + |first|, bound, tail);
    }
  }

  /** The bytes of one record: a pointer to the question's name, the fixed fields, the data. */
  ghost predicate IsRecord(r: seq<Byte>, qtype: U16, octets: seq<Byte>) {
    && |r| == 12 + |octets| <= 28 && r[12..] == octets
    && ReadBe16(r, 0) == Some(0xC00C) && ReadBe16(r, 2) == Some(qtype) && ReadBe16(r, 4) == Some(CLASS_IN)
    && ReadBe16(r, 6) == Some(0) && ReadBe16(r, 8) == Some(ANSWER_TTL) && ReadBe16(r, 10) == Some(|octets|)
  }

  lemma RecordFields(qtype: U16, a: Ip)
    ensures IsRecord(RecordBytes(qtype, a), qtype, a.Octets())
  {
  }

  /** Reading inside a piece of a message is reading the piece. */
  lemma ReadInside(msg: seq<Byte>, at: nat, piece: seq<Byte>, k: nat)
    requires at + |piece| <= |msg| && msg[at..at + |piece|] == piece && k + 2 <= |piece|
    ensures ReadBe16(msg, at + k) == ReadBe16(piece, k)
  {
  }

  lemma ReadPointer(msg: seq<Byte>, at: nat, owner: seq<seq<Byte>>, next: nat)
    requires 12 < at && ReadBe16(msg, at) == Some(0xC00C)
    requires ReadName(msg, 12, 12) == Some(Scan(owner, next))
    ensures ReadName(msg, at, at) == Some(Scan(owner, at + 2))
  {
  }

  lemma ReadOwner(msg: seq<Byte>, at: nat, r: seq<Byte>, qtype: U16, octets: seq<Byte>, owner: seq<seq<Byte>>, next: nat)
    requires IsRecord(r, qtype, octets) && 12 < at && at + |r| <= |msg| && msg[at..at + |r|] == r
    requires ReadName(msg, 12, 12) == Some(Scan(owner, next))
    ensures ReadName(msg, at, at) == Some(Scan(owner, at + 2))
  {
    hide ReadName, ReadBe16;
    ReadInside(msg, at, r, 0);
    ReadPointer(msg, at, owner, next);
  }

  lemma ReadFields(msg: seq<Byte>, at: nat, r: seq<Byte>, qtype: U16, octets: seq<Byte>, owner: seq<seq<Byte>>)
    requires IsRecord(r, qtype, octets) && at + |r| <= |msg| && msg[at..at + |r|] == r
    requires ReadName(msg, at, at) == Some(Scan(owner, at + 2))
    ensures ReadRecord(msg, at) == Some(Reading(Record(owner, qtype, CLASS_IN, ANSWER_TTL, octets), at + |r|))
  {
    hide ReadName, ReadBe16;
    ReadInside(msg, at, r, 2);
    ReadInside(msg, at, r, 4);
    ReadInside(msg, at, r, 6);
    ReadInside(msg, at, r, 8);
    ReadInside(msg, at, r, 10);
    assert msg[at + 12..at + |r|] == msg[at..at + |r|][12..];
  }

  /** A record written at an offset past the question is read back whole. */
  lemma ReadRecordAt(msg: seq<Byte>, at: nat, r: seq<Byte>, qtype: U16, a: Ip, owner: seq<seq<Byte>>, next: nat)
    requires r == RecordBytes(qtype, a) && 12 < at && at + |r| <= |msg| && msg[at..at + |r|] == r
    requires ReadName(msg, 12, 12) == Some(Scan(owner, next))
    ensures ReadRecord(msg, at) == Some(Reading(Record(owner, qtype, CLASS_IN, ANSWER_TTL, a.Octets()), at + |r|))
  {
    hide ReadName, RecordBytes, ReadRecord, IsRecord;
    RecordFields(qtype, a);
    ReadOwner(msg, at, r, qtype, a.Octets(), owner, next);
    ReadFields(msg, at, r, qtype, a.Octets(), owner);
  }

  lemma SuffixParts(msg: seq<Byte>, at: nat, head: seq<Byte>, tail: seq<Byte>)
    requires at <= |msg| && msg[at..] == head + tail
    ensures at + |head| <= |msg| && msg[at..at + |head|] == head && msg[at + |head|..] == tail
  {
  }

  lemma {:induction false} AllRecordBytesAppend(qtype: U16, front: seq<Ip>, back: seq<Ip>)
    ensures AllRecordBytes(qtype, front + back) == AllRecordBytes(qtype, front) + AllRecordBytes(qtype, back)
  {
    hide RecordBytes;
    if front == [] {
      assert front + back == back;
    } else {
      AllRecordBytesAppend(qtype, front[1..], back);
      assert (front + back)[0] == front[0] && (front + back)[1..] == front[1..] + back;
      Associate(RecordBytes(qtype, front[0]), AllRecordBytes(qtype, front[1..]), AllRecordBytes(qtype, back));
    }
  }

  /** Records followed by anything, read from where they start. */
  lemma {:induction false} ReadRecordsAt(msg: seq<Byte>, at: nat, qtype: U16, addrs: seq<Ip>, rest: seq<Byte>,
                                         owner: seq<seq<Byte>>, next: nat)
    requires 12 < at <= |msg| && msg[at..] == AllRecordBytes(qtype, addrs) + rest
    requires ReadName(msg, 12, 12) == Some(Scan(owner, next))
    requires AllOfFamily(addrs, qtype == TYPE_AAAA)
    ensures ReadRecords(msg, at, |addrs|)
         == Some(Section(Expected(owner, qtype, addrs), at + RecordsLen(qtype, |addrs|)))
    decreases |addrs|
  {
    hide RecordBytes, ReadRecord, ReadName;
    if addrs != [] {
      var r, tail := RecordBytes(qtype, addrs[0]), addrs[1..];
      assert msg[at..] == r + (AllRecordBytes(qtype, tail) + rest);
      SuffixParts(msg, at, r, AllRecordBytes(qtype, tail) + rest);
      ReadRecordAt(msg, at, r, qtype, addrs[0], owner, next);
      ReadRecordsAt(msg, at + |r|, qtype, tail, rest, owner, next);
    }
  }

  lemma {:induction false} AllOfFamilyTake(addrs: seq<Ip>, v6: bool, count: nat)
    requires AllOfFamily(addrs, v6) && count <= |addrs|
    ensures AllOfFamily(addrs[..count], v6)
  {
    if count > 0 {
      AllOfFamilyTake(addrs[1..], v6, count - 1);
      assert addrs[..count][1..] == addrs[1..][..count - 1];
    }
  }

  lemma {:induction false} AllRecordBytesLength(qtype: U16, addrs: seq<Ip>)
    requires AllOfFamily(addrs, qtype == TYPE_AAAA)
    ensures |AllRecordBytes(qtype, addrs)| == RecordsLen(qtype, |addrs|)
  {
    if addrs != [] {
      AllRecordBytesLength(qtype, addrs[1..]);
    }
  }

  lemma QuestionNameReadable(q: Query, rcode: U16, answers: seq<Byte>, ancount: U16)
    requires Accepted(q) && rcode < 16
    ensures ReadName(Response(q, rcode, answers, ancount), 12, 12) == Some(Scan(WireName(q.raw), q.question.end - 4))
  {
    var out, labels := Response(q, rcode, answers, ancount), WireName(q.raw);
    AcceptedDecomposes(q.raw);
    ResponseLayout(q, rcode, answers, ancount);
    PlainIn(q.raw, out, q.question.end, labels);
  }

  lemma PlainIn(raw: seq<Byte>, out: seq<Byte>, end: nat, labels: seq<seq<Byte>>)
    requires Asks(raw, labels) && end == HEADER_LEN + |EncodeLabels(labels)| + 5 <= |out|
    requires out[HEADER_LEN..end] == raw[HEADER_LEN..end]
    ensures ReadName(out, 12, 12) == Some(Scan(labels, end - 4))
  {
    hide EncodeLabels, WireLabels, ReadName;
    var n := |EncodeLabels(labels)|;
    SubSlice(raw, HEADER_LEN, end, n);
    SubSlice(out, HEADER_LEN, end, n);
    ReadNamePlain(out, HEADER_LEN, 12, labels);
  }

  /** What a decoder driven by the header makes of an answer: as many records as the
      wrapped count says, each owned by the question's name. */
  lemma AnswerDecodes(q: Query, addrs: seq<Ip>)
    requires Accepted(q)
    ensures var out, qtype := Answer(q, addrs), q.question.qtype;
      var matching := Matching(addrs, qtype);
      var count := |matching| % 0x1_0000;
      && |out| == q.question.end + RecordsLen(qtype, |matching|)
      && ReadAnswers(out, q.question.end)
         == Some(Section(Expected(WireName(q.raw), qtype, matching[..count]),
                         q.question.end + RecordsLen(qtype, count)))
  {
    hide Parse, Response, ReadAnswers, Matching, AllRecordBytes, RecordsLen, Expected, WireName, EncodeLabels;
    var qtype := q.question.qtype;
    var matching := Matching(addrs, qtype);
    var answers := AllRecordBytes(qtype, matching);
    AcceptedDecomposes(q.raw);
    AllRecordBytesLength(qtype, matching);
    AnswersDecode(q, qtype, matching, |matching| % 0x1_0000, Answer(q, addrs));
  }

  lemma AnswersDecode(q: Query, qtype: U16, matching: seq<Ip>, count: U16, out: seq<Byte>)
    requires Accepted(q) && HEADER_LEN < q.question.end
    requires AllOfFamily(matching, qtype == TYPE_AAAA) && count <= |matching|
    requires out == Response(q, RCODE_NOERROR, AllRecordBytes(qtype, matching), count)
    ensures ReadAnswers(out, q.question.end)
         == Some(Section(Expected(WireName(q.raw), qtype, matching[..count]), q.question.end + RecordsLen(qtype, count)))
  {
    hide Parse, Response, ReadRecords, ReadName, AllRecordBytes, Expected, WireName, AllOfFamily;
    var answers := AllRecordBytes(qtype, matching);
    ResponseLayout(q, RCODE_NOERROR, answers, count);
    QuestionNameReadable(q, RCODE_NOERROR, answers, count);
    ReadInside(out, 6, Be16(count), 0);
    var front, back := matching[..count], matching[count..];
    assert matching == front + back;
    AllRecordBytesAppend(qtype, front, back);
    AllOfFamilyTake(matching, qtype == TYPE_AAAA, count);
    ReadRecordsAt(out, q.question.end, qtype, front, AllRecordBytes(qtype, back), WireName(q.raw), q.question.end - 4);
  }

  /** A local answer is a NOERROR response that echoes the question. */
  lemma AnswerEchoes(q: Query, addrs: seq<Ip>)
    requires Accepted(q)
    ensures var out := Answer(q, addrs);
      && Parse(out) == Err(NotAQuery) && Parse(AsQuery(out)).Ok?
      && var echo := Parse(AsQuery(out)).value;
         echo.id == q.id && echo.question == q.question && Rcode(echo.flags) == RCODE_NOERROR
  {
    hide Parse, Response, AllRecordBytes, Matching;
    var matching := Matching(addrs, q.question.qtype);
    ResponseEchoes(q, RCODE_NOERROR, AllRecordBytes(q.question.qtype, matching), |matching| % 0x1_0000);
  }

  /** The answer round trip: the decoder recovers every matching address in order and
      consumes the message to its last byte exactly when the 16-bit count holds them. */
  lemma AnswerRoundTrip(q: Query, addrs: seq<Ip>)
    requires Accepted(q)
    ensures var out, qtype := Answer(q, addrs), q.question.qtype;
      var matching := Matching(addrs, qtype);
      ReadAnswers(out, q.question.end) == Some(Section(Expected(WireName(q.raw), qtype, matching), |out|))
      <==> |matching| < 0x1_0000
  {
    hide Parse, Answer, ReadAnswers;
    AnswerDecodes(q, addrs);
    var matching := Matching(addrs, q.question.qtype);
    if |matching| < 0x1_0000 {
      assert matching[..|matching|] == matching;
    } else {
      assert |Expected(WireName(q.raw), q.question.qtype, matching)| == |matching|;
    }
  }
}
