/** DNS messages: parsing the one question of a query, and building responses
    (sections 4.1.1 to 4.1.4 of RFC 1035). */
module DnsMessage {
  import opened Bytes
  import opened Bits
  import Utf8

  const TYPE_A: U16 := 1
  const TYPE_AAAA: U16 := 28
  const CLASS_IN: U16 := 1

  const RCODE_NOERROR: U16 := 0
  const RCODE_FORMERR: U16 := 1
  const RCODE_SERVFAIL: U16 := 2
  const RCODE_NXDOMAIN: U16 := 3

  const FLAG_QR: U16 := 0x8000
  const FLAG_OPCODE: U16 := 0x7800
  const FLAG_RD: U16 := 0x0100
  const FLAG_RA: U16 := 0x0080

  const HEADER_LEN := 12
  const ANSWER_TTL := 60

  /** What is asked; `end` is the offset just past the question section. */
  datatype Question = Question(name: Str, qtype: U16, qclass: U16, end: nat)

  datatype Query = Query(id: U16, flags: U16, question: Question, raw: seq<Byte>)

  datatype ParseError = TooShort | NotAQuery | QuestionCount(count: U16) | BadName

  // ---- Parsing -------------------------------------------------------------

  /** The text of a wire label: lossily decoded and lower-cased. */
  function LabelText(wire: seq<Byte>): Str {
    Lower(Utf8.Lossy(wire))
  }

  function LabelTexts(labels: seq<seq<Byte>>): (r: seq<Str>)
    ensures |r| == |labels| && forall i :: 0 <= i < |r| ==> r[i] == LabelText(labels[i])
  {
    if labels == [] then [] else [LabelText(labels[0])] + LabelTexts(labels[1..])
  }

  datatype Scan = Scan(labels: seq<seq<Byte>>, next: nat)

  /** The labels from an offset up to the zero octet, and the offset after it. */
  function ScanName(raw: seq<Byte>, at: nat): Option<Scan>
    decreases |raw| - at
  {
    if at >= |raw| then None
    else if raw[at] == 0 then Some(Scan([], at + 1))
    else
      var next := at + 1 + raw[at] as int;
      if raw[at] > 63 || next > |raw| || next - HEADER_LEN > 255 then None
      else Prepend([raw[at + 1..next]], ScanName(raw, next))
  }

  function Prepend(labels: seq<seq<Byte>>, scan: Option<Scan>): Option<Scan> {
    match scan
    case None => None
    case Some(s) => Some(Scan(labels + s.labels, s.next))
  }

  function Parse(raw: seq<Byte>): Result<Query, ParseError> {
    if |raw| < HEADER_LEN then Err(TooShort)
    else
      var id, flags, qdcount := ReadBe16(raw, 0).value, ReadBe16(raw, 2).value, ReadBe16(raw, 4).value;
      if BitAnd(flags, FLAG_QR) != 0 then Err(NotAQuery)
      else if qdcount != 1 then Err(QuestionCount(qdcount))
      else match ScanName(raw, HEADER_LEN)
        case None => Err(BadName)
        case Some(Scan(labels, at)) =>
          match (ReadBe16(raw, at), ReadBe16(raw, at + 2))
          case (Some(qtype), Some(qclass)) =>
            Ok(Query(id, flags, Question(Join(LabelTexts(labels)), qtype, qclass, at + 4), raw))
          case _ => Err(TooShort)
  }

  datatype Labels = Labels(texts: seq<Str>, next: nat)

  /** The loop of `Query::parse` that walks the labels. */
  method ParseLabels(raw: seq<Byte>) returns (r: Option<Labels>)
    ensures match ScanName(raw, HEADER_LEN)
            case None => r == None
            case Some(scan) => r == Some(Labels(LabelTexts(scan.labels), scan.next))
  {
    hide LabelText, ScanName, LabelTexts;
    var texts: seq<Str> := [];
    ghost var wire: seq<seq<Byte>> := [];
    var at := HEADER_LEN;
    PrependNothing(ScanName(raw, at));
    LabelTextsSnoc([], []);
    while true
      invariant HEADER_LEN <= at
      invariant texts == LabelTexts(wire)
      invariant ScanName(raw, HEADER_LEN) == Prepend(wire, ScanName(raw, at))
      decreases |raw| - at
    {
      ScanStep(raw, at);
      if at >= |raw| {
        return None;
      }
      var len := raw[at] as int;
      at := at + 1;
      if len == 0 {
        assert wire + [] == wire;
        return Some(Labels(texts, at));
      }
      if len > 63 || at + len > |raw| {
        return None;
      }
      var piece := raw[at..at + len];
      texts := texts + [LabelText(piece)];
      at := at + len;
      if at - HEADER_LEN > 255 {
        return None;
      }
      PrependTwice(wire, [piece], ScanName(raw, at));
      LabelTextsSnoc(wire, piece);
      wire := wire + [piece];
    }
  }

  /** `Query::parse`. */
  method ParseQuery(raw: seq<Byte>) returns (r: Result<Query, ParseError>)
    ensures r == Parse(raw)
  {
    hide BitAnd, Join, ScanName, LabelTexts;
    if |raw| < HEADER_LEN {
      return Err(TooShort);
    }
    var id, flags := ReadBe16(raw, 0).value, ReadBe16(raw, 2).value;
    if BitAnd(flags, FLAG_QR) != 0 {
      return Err(NotAQuery);
    }
    var qdcount := ReadBe16(raw, 4).value;
    if qdcount != 1 {
      return Err(QuestionCount(qdcount));
    }
    var name := ParseLabels(raw);
    if name.None? {
      return Err(BadName);
    }
    var Labels(texts, at) := name.value;
    var qtype, qclass := ReadBe16(raw, at), ReadBe16(raw, at + 2);
    if qtype.None? || qclass.None? {
      return Err(TooShort);
    }
    return Ok(Query(id, flags, Question(Join(texts), qtype.value, qclass.value, at + 4), raw));
  }

  lemma ScanStep(raw: seq<Byte>, at: nat)
    ensures at >= |raw| ==> ScanName(raw, at) == None
    ensures at < |raw| && raw[at] == 0 ==> ScanName(raw, at) == Some(Scan([], at + 1))
    ensures at < |raw| && raw[at] != 0 ==>
      var next := at + 1 + raw[at] as int;
      ScanName(raw, at) == if raw[at] > 63 || next > |raw| || next - HEADER_LEN > 255 then None
                           else Prepend([raw[at + 1..next]], ScanName(raw, next))
  {
  }

  lemma LabelTextsSnoc(wire: seq<seq<Byte>>, piece: seq<Byte>)
    ensures LabelTexts([]) == [] && LabelTexts(wire + [piece]) == LabelTexts(wire) + [LabelText(piece)]
  {
  }

  lemma PrependNothing(scan: Option<Scan>)
    ensures Prepend([], scan) == scan
  {
    if scan.Some? { assert [] + scan.value.labels == scan.value.labels; }
  }

  lemma PrependTwice(a: seq<seq<Byte>>, b: seq<seq<Byte>>, scan: Option<Scan>)
    ensures Prepend(a, Prepend(b, scan)) == Prepend(a + b, scan)
  {
    if scan.Some? { assert a + (b + scan.value.labels) == (a + b) + scan.value.labels; }
  }

  // ---- The encoding the parser inverts --------------------------------------

  /** Labels as section 3.1 of RFC 1035 bounds them: one to 63 octets. */
  ghost predicate WireLabels(labels: seq<seq<Byte>>) {
    labels == [] || (0 < |labels[0]| <= 63 && WireLabels(labels[1..]))
  }

  /** Length-prefixed labels, without the terminating zero. */
  function EncodeLabels(labels: seq<seq<Byte>>): seq<Byte>
    requires WireLabels(labels)
  {
    if labels == [] then []
    else
      var len: Byte := |labels[0]|;
      [len] + labels[0] + EncodeLabels(labels[1..])
  }

  /** `raw` is a one-question query whose question names exactly these labels. */
  ghost predicate Asks(raw: seq<Byte>, labels: seq<seq<Byte>>) {
    && WireLabels(labels)
    && |EncodeLabels(labels)| <= 255
    && HEADER_LEN + |EncodeLabels(labels)| + 5 <= |raw|
    && raw[2] < 0x80
    && raw[4..6] == [0, 1]
    && raw[HEADER_LEN..HEADER_LEN + |EncodeLabels(labels)|] == EncodeLabels(labels)
    && raw[HEADER_LEN + |EncodeLabels(labels)|] == 0
  }

  /** A piece of a message that is a length octet, a label and more. */
  lemma PieceParts(raw: seq<Byte>, at: nat, len: Byte, mid: seq<Byte>, rest: seq<Byte>)
    requires at + 1 + |mid| + |rest| <= |raw|
    ensures raw[at..at + 1 + |mid| + |rest|] == [len] + mid + rest
       <==> raw[at] == len && raw[at + 1..at + 1 + |mid|] == mid
            && raw[at + 1 + |mid|..at + 1 + |mid| + |rest|] == rest
  {
    var next, end := at + 1 + |mid|, at + 1 + |mid| + |rest|;
    var piece := raw[at..end];
    assert piece == [raw[at]] + raw[at + 1..next] + raw[next..end];
    if piece == [len] + mid + rest {
      assert piece[0] == len && piece[1..1 + |mid|] == mid && piece[1 + |mid|..] == rest;
    }
  }

  lemma EncodeCons(first: seq<Byte>, rest: seq<seq<Byte>>)
    requires 0 < |first| <= 63 && WireLabels(rest)
    ensures WireLabels([first] + rest)
    ensures EncodeLabels([first] + rest) == [|first| as Byte] + first + EncodeLabels(rest)
  {
  }

  lemma WireLabelsCons(labels: seq<seq<Byte>>)
    requires WireLabels(labels) && labels != []
    ensures 0 < |labels[0]| <= 63 && WireLabels(labels[1..])
  {
  }

  lemma NoLabels()
    ensures WireLabels([]) && EncodeLabels([]) == []
  {
  }

  lemma {:induction false} ScanInvertsEncode(raw: seq<Byte>, at: nat, labels: seq<seq<Byte>>)
    requires WireLabels(labels) && HEADER_LEN <= at
    requires at + |EncodeLabels(labels)| < |raw|
    requires at + |EncodeLabels(labels)| <= HEADER_LEN + 255
    requires raw[at..at + |EncodeLabels(labels)|] == EncodeLabels(labels)
    requires raw[at + |EncodeLabels(labels)|] == 0
    ensures ScanName(raw, at) == Some(Scan(labels, at + |EncodeLabels(labels)| + 1))
    decreases |labels|
  {
    hide WireLabels, EncodeLabels;
    NoLabels();
    if labels != [] {
      var first, tail := labels[0], labels[1..];
      assert labels == [first] + tail;
      WireLabelsCons(labels);
      EncodeCons(first, tail);
      PieceParts(raw, at, |first|, first, EncodeLabels(tail));
      ScanInvertsEncode(raw, at + 1 + |first|, tail);
    }
  }

  lemma {:induction false} ScanDecomposes(raw: seq<Byte>, at: nat)
    requires HEADER_LEN <= at && ScanName(raw, at).Some?
    ensures var Scan(labels, next) := ScanName(raw, at).value;
      && WireLabels(labels)
      && next == at + |EncodeLabels(labels)| + 1 <= |raw|
      && raw[at..next - 1] == EncodeLabels(labels)
      && raw[next - 1] == 0
      && (labels != [] ==> next - 1 <= HEADER_LEN + 255)
    decreases |raw| - at
  {
    hide WireLabels, EncodeLabels;
    NoLabels();
    if raw[at] != 0 {
      var next := at + 1 + raw[at] as int;
      ScanDecomposes(raw, next);
      var Scan(tail, end) := ScanName(raw, next).value;
      EncodeCons(raw[at + 1..next], tail);
      PieceParts(raw, at, raw[at], raw[at + 1..next], EncodeLabels(tail));
    }
  }

  lemma QueryBit(raw: seq<Byte>)
    requires |raw| >= 4
    ensures BitAnd(ReadBe16(raw, 2).value, FLAG_QR) == 0 <==> raw[2] < 0x80
  {
    hide BitAnd, Pow2, ReadBe16;
    Powers();
    AndField(ReadBe16(raw, 2).value, FLAG_QR, 1, 15, 0x8000);
    HighBit(raw);
  }

  lemma HighBit(raw: seq<Byte>)
    requires |raw| >= 4
    ensures ReadBe16(raw, 2).value / 0x8000 % 2 == 0 <==> raw[2] < 0x80
  {
  }

  lemma CountIsOne(raw: seq<Byte>)
    requires |raw| >= 6
    ensures ReadBe16(raw, 4).value == 1 <==> raw[4..6] == [0, 1]
  {
  }

  /** The query such a message is. */
  ghost function QueryAsked(raw: seq<Byte>, labels: seq<seq<Byte>>): Query
    requires Asks(raw, labels)
  {
    var end := HEADER_LEN + |EncodeLabels(labels)| + 5;
    Query(ReadBe16(raw, 0).value, ReadBe16(raw, 2).value,
          Question(Join(LabelTexts(labels)), ReadBe16(raw, end - 4).value, ReadBe16(raw, end - 2).value, end), raw)
  }

  /** Parsing inverts the encoding, whatever follows the question. */
  lemma ParseInvertsEncoding(raw: seq<Byte>, labels: seq<seq<Byte>>)
    requires Asks(raw, labels)
    ensures Parse(raw) == Ok(QueryAsked(raw, labels))
  {
    hide BitAnd, Join, LabelTexts, ScanName, EncodeLabels;
    QueryBit(raw);
    CountIsOne(raw);
    ScanInvertsEncode(raw, HEADER_LEN, labels);
  }

  ghost function WireName(raw: seq<Byte>): (labels: seq<seq<Byte>>)
    requires Parse(raw).Ok?
  {
    ScanName(raw, HEADER_LEN).value.labels
  }

  lemma WireNameIs(raw: seq<Byte>, labels: seq<seq<Byte>>)
    requires Asks(raw, labels)
    ensures Parse(raw).Ok? && WireName(raw) == labels
  {
    ParseInvertsEncoding(raw, labels);
    ScanInvertsEncode(raw, HEADER_LEN, labels);
  }

  /** Every accepted message is the encoding of some question, within bounds. */
  lemma AcceptedDecomposes(raw: seq<Byte>)
    requires Parse(raw).Ok?
    ensures Asks(raw, WireName(raw))
    ensures var q := Parse(raw).value;
      && q.raw == raw
      && HEADER_LEN < q.question.end <= |raw|
      && q.question.end == HEADER_LEN + |EncodeLabels(WireName(raw))| + 5 <= 272
      && q.question.name == Join(LabelTexts(WireName(raw)))
  {
    hide BitAnd, Join, LabelTexts, ScanName;
    QueryBit(raw);
    CountIsOne(raw);
    ScanDecomposes(raw, HEADER_LEN);
  }

  /** Acceptance, exactly: some labels encode the question. */
  lemma AcceptedIff(raw: seq<Byte>)
    ensures Parse(raw).Ok? <==> exists labels :: Asks(raw, labels)
  {
    if Parse(raw).Ok? {
      AcceptedDecomposes(raw);
    }
    if labels :| Asks(raw, labels) {
      ParseInvertsEncoding(raw, labels);
    }
  }

  /** A header that announces one question, the question, and anything after it. */
  lemma BuiltQueryParses(head: seq<Byte>, labels: seq<seq<Byte>>, tail: seq<Byte>)
    requires |head| == HEADER_LEN && head[2] < 0x80 && head[4..6] == [0, 1] && |tail| >= 4
    requires WireLabels(labels) && |EncodeLabels(labels)| <= 255
    ensures var raw := head + EncodeLabels(labels) + [0] + tail;
      Parse(raw) == Ok(Query(ReadBe16(head, 0).value, ReadBe16(head, 2).value,
                             Question(Join(LabelTexts(labels)), ReadBe16(tail, 0).value, ReadBe16(tail, 2).value,
                                      HEADER_LEN + |EncodeLabels(labels)| + 5), raw))
  {
    hide Parse, EncodeLabels, Join, LabelTexts, WireLabels;
    var code := EncodeLabels(labels);
    var raw := head + code + [0] + tail;
    assert raw[HEADER_LEN..HEADER_LEN + |code|] == code && raw[4..6] == head[4..6];
    ParseInvertsEncoding(raw, labels);
  }

  function Letters(n: nat): (r: seq<Byte>)
    ensures |r| == n
  {
    seq(n, _ => 97)
  }

  const LONGEST: seq<seq<Byte>> := [Letters(63), Letters(63), Letters(63), Letters(62)]

  /** The bound is met: the length check runs before the terminating zero is counted, so
      a name of 256 octets is accepted, one more than section 2.3.4 of RFC 1035 allows. */
  lemma LongestNameIsAccepted(head: seq<Byte>, tail: seq<Byte>)
    requires |head| == HEADER_LEN && head[2] < 0x80 && head[4..6] == [0, 1] && |tail| >= 4
    ensures WireLabels(LONGEST) && |EncodeLabels(LONGEST) + [0]| == 256
    ensures var raw := head + EncodeLabels(LONGEST) + [0] + tail;
      Parse(raw).Ok? && Parse(raw).value.question.end == 272
  {
    hide Parse, EncodeLabels;
    LongestEncoding();
    BuiltQueryParses(head, LONGEST, tail);
  }

  lemma LongestEncoding()
    ensures WireLabels(LONGEST) && |EncodeLabels(LONGEST)| == 255
  {
  }

  /** The name the policy sees splits back into the labels exactly when none of the
      labels on the wire contains a dot octet. */
  lemma NameSplitsIntoLabels(labels: seq<seq<Byte>>)
    requires labels != []
    ensures Split(Join(LabelTexts(labels))) == LabelTexts(labels) <==> forall l <- labels :: DOT !in l
  {
    var texts := LabelTexts(labels);
    SplitInvertsJoin(texts);
    forall i | 0 <= i < |labels| ensures DOT in texts[i] <==> DOT in labels[i] {
      Utf8.LossyKeepsDots(labels[i]);
      LowerKeepsDots(Utf8.Lossy(labels[i]));
    }
    if forall t <- texts :: DOT !in t {
      forall l | l in labels ensures DOT !in l {
        var i :| 0 <= i < |labels| && labels[i] == l;
        assert texts[i] in texts;
      }
    }
  }

  const DOTTED: seq<seq<Byte>> := [[97, DOT, 98]]
  const TWO: seq<seq<Byte>> := [[97], [98]]

  /** A label holding a dot octet is indistinguishable from two labels: two different
      messages parse to queries that differ in nothing but the message kept. */
  lemma DottedLabelCollides(head: seq<Byte>, tail: seq<Byte>)
    requires |head| == HEADER_LEN && head[2] < 0x80 && head[4..6] == [0, 1] && |tail| >= 4
    ensures var a, b := head + [3, 97, 46, 98, 0] + tail, head + [1, 97, 1, 98, 0] + tail;
      a != b && Parse(a).Ok? && Parse(b).Ok? && Parse(a).value == Parse(b).value.(raw := a)
  {
    hide Parse, Join, LabelTexts;
    hide EncodeLabels;
    var a, b := head + [3, 97, 46, 98, 0] + tail, head + [1, 97, 1, 98, 0] + tail;
    assert a[HEADER_LEN] != b[HEADER_LEN];
    SmallEncodings();
    assert head + EncodeLabels(DOTTED) + [0] + tail == a;
    assert head + EncodeLabels(TWO) + [0] + tail == b;
    BuiltQueryParses(head, DOTTED, tail);
    BuiltQueryParses(head, TWO, tail);
    JoinsAlike();
  }

  lemma SmallEncodings()
    ensures WireLabels(DOTTED) && EncodeLabels(DOTTED) == [3, 97, 46, 98]
    ensures WireLabels(TWO) && EncodeLabels(TWO) == [1, 97, 1, 98]
  {
  }

  lemma JoinsAlike()
    ensures Join(LabelTexts(DOTTED)) == Join(LabelTexts(TWO))
  {
    Utf8.AsciiIsValid([97, DOT, 98]);
    Utf8.AsciiIsValid([97]);
    Utf8.AsciiIsValid([98]);
    Utf8.LossyFixesExactlyValid([97, DOT, 98]);
    Utf8.LossyFixesExactlyValid([97]);
    Utf8.LossyFixesExactlyValid([98]);
    assert Lower([97, DOT, 98]) == [97, DOT, 98];
    assert Lower([97]) == [97] && Lower([98]) == [98];
    assert LabelTexts([[97, DOT, 98]]) == [[97, DOT, 98]];
    assert LabelTexts([[97], [98]]) == [[97], [98]];
    assert Join([[97], [98]]) == [97, DOT, 98];
  }

  // ---- Responses -------------------------------------------------------------

  /** A query as `Parse` produces it; its question then ends inside the message. */
  ghost predicate Accepted(q: Query) {
    Parse(q.raw) == Ok(q) && HEADER_LEN <= q.question.end <= |q.raw|
  }

  lemma ParsedIsAccepted(raw: seq<Byte>)
    requires Parse(raw).Ok?
    ensures Accepted(Parse(raw).value) && Parse(raw).value.raw == raw
  {
    hide Parse;
    AcceptedDecomposes(raw);
  }

  /** The flags word of every response: QR, the query's opcode and RD, RA, the code. */
  function ResponseFlags(flags: U16, rcode: U16): U16
    requires rcode < 16
  {
    0x8000 + (flags / 0x800 % 16) * 0x800 + (flags / 0x100 % 2) * 0x100 + 0x80 + rcode
  }

  /** It is the word the masks and ors of `Query::response` compute. */
  lemma ResponseFlagsBitwise(flags: U16, rcode: U16)
    requires rcode < 16
    ensures ResponseFlags(flags, rcode)
         == BitOr(BitOr(BitOr(BitOr(FLAG_QR, BitAnd(flags, FLAG_OPCODE)), BitAnd(flags, FLAG_RD)), FLAG_RA), rcode)
  {
    Powers();
    var opcode, rd := flags / 0x800 % 16, flags / 0x100 % 2;
    AndField(flags, FLAG_OPCODE, 4, 11, 0x800);
    AndField(flags, FLAG_RD, 1, 8, 0x100);
    OrField(1, opcode * 0x800, 15, 0x8000);
    OrField(16 + opcode, rd * 0x100, 11, 0x800);
    OrField(8 * (16 + opcode) + rd, 0x80, 8, 0x100);
    OrField(16 * (16 + opcode) + 2 * rd + 1, rcode, 7, 0x80);
  }

  function QuestionBytes(q: Query): seq<Byte>
    requires HEADER_LEN <= q.question.end <= |q.raw|
  {
    q.raw[HEADER_LEN..q.question.end]
  }

  /** `Query::response`: header, the question echoed back, the answers. */
  function Response(q: Query, rcode: U16, answers: seq<Byte>, ancount: U16): (out: seq<Byte>)
    requires HEADER_LEN <= q.question.end <= |q.raw| && rcode < 16
    ensures |out| == q.question.end + |answers|
  {
    Be16(q.id) + Be16(ResponseFlags(q.flags, rcode)) + Be16(1) + Be16(ancount) + Be16(0) + Be16(0)
    + QuestionBytes(q) + answers
  }

  function Nxdomain(q: Query): seq<Byte>
    requires HEADER_LEN <= q.question.end <= |q.raw|
  {
    Response(q, RCODE_NXDOMAIN, [], 0)
  }

  function Servfail(q: Query): seq<Byte>
    requires HEADER_LEN <= q.question.end <= |q.raw|
  {
    Response(q, RCODE_SERVFAIL, [], 0)
  }

  lemma ResponseLayout(q: Query, rcode: U16, answers: seq<Byte>, ancount: U16)
    requires HEADER_LEN <= q.question.end <= |q.raw| && rcode < 16
    ensures var out := Response(q, rcode, answers, ancount);
      && out[..2] == Be16(q.id) && out[2..4] == Be16(ResponseFlags(q.flags, rcode))
      && out[4..6] == [0, 1] && out[6..8] == Be16(ancount) && out[8..12] == [0, 0, 0, 0]
      && out[HEADER_LEN..q.question.end] == QuestionBytes(q)
      && out[q.question.end..] == answers
      && ResponseFlags(q.flags, rcode) >= 0x8000
  {
  }

  function Opcode(flags: U16): U16 { flags / 0x800 % 16 }
  predicate RecursionDesired(flags: U16) { flags / 0x100 % 2 == 1 }
  predicate RecursionAvailable(flags: U16) { flags / 0x80 % 2 == 1 }
  function Rcode(flags: U16): U16 { flags % 16 }

  /** The message with only its QR bit cleared. */
  function AsQuery(out: seq<Byte>): seq<Byte>
    requires |out| > 2
  {
    out[2 := out[2] % 0x80]
  }

  lemma ResponseIsNotAQuery(q: Query, rcode: U16, answers: seq<Byte>, ancount: U16)
    requires HEADER_LEN <= q.question.end <= |q.raw| && rcode < 16
    ensures Parse(Response(q, rcode, answers, ancount)) == Err(NotAQuery)
  {
    var out := Response(q, rcode, answers, ancount);
    ResponseLayout(q, rcode, answers, ancount);
    assert out[2] == out[2..4][0];
    QueryBit(out);
  }

  /** With only the QR bit cleared, a response parses to the question it answers. */
  lemma EchoParses(q: Query, rcode: U16, answers: seq<Byte>, ancount: U16)
    requires Accepted(q) && rcode < 16
    ensures var out := AsQuery(Response(q, rcode, answers, ancount));
      && Parse(out) == Ok(Query(q.id, ResponseFlags(q.flags, rcode) - 0x8000, q.question, out))
      && WireName(out) == WireName(q.raw)
  {
    hide Parse, Response, Be16, QuestionBytes, WireName, AsQuery, ResponseFlags;
    ResponseLayout(q, rcode, answers, ancount);
    EchoFrom(q, Response(q, rcode, answers, ancount), ResponseFlags(q.flags, rcode));
  }

  lemma EchoFrom(q: Query, out: seq<Byte>, flags: U16)
    requires Accepted(q)
    requires q.question.end <= |out| && out[..2] == Be16(q.id) && out[2..4] == Be16(flags) && flags >= 0x8000
    requires out[4..6] == [0, 1] && out[HEADER_LEN..q.question.end] == QuestionBytes(q)
    ensures Parse(AsQuery(out)) == Ok(Query(q.id, flags - 0x8000, q.question, AsQuery(out)))
    ensures WireName(AsQuery(out)) == WireName(q.raw)
  {
    var labels := WireName(q.raw);
    AcceptedDecomposes(q.raw);
    ParseInvertsEncoding(q.raw, labels);
    EchoOf(q, out, flags, labels);
    ParseInvertsEncoding(AsQuery(out), labels);
    WireNameIs(AsQuery(out), labels);
  }

  lemma EchoOf(q: Query, out: seq<Byte>, flags: U16, labels: seq<seq<Byte>>)
    requires Asks(q.raw, labels) && q == QueryAsked(q.raw, labels)
    requires q.question.end <= |out|
    requires out[..2] == Be16(q.id) && out[2..4] == Be16(flags) && flags >= 0x8000
    requires out[4..6] == [0, 1] && out[HEADER_LEN..q.question.end] == QuestionBytes(q)
    ensures Asks(AsQuery(out), labels)
    ensures QueryAsked(AsQuery(out), labels) == Query(q.id, flags - 0x8000, q.question, AsQuery(out))
  {
    hide EncodeLabels, Join, LabelTexts, Be16, ReadBe16;
    var echo := AsQuery(out);
    EchoAsks(q, out, labels);
    assert echo[HEADER_LEN..q.question.end] == out[HEADER_LEN..q.question.end];
    SameReads(q.raw, echo, q.question.end);
    EchoHeader(out, q.id, flags);
  }

  lemma EchoHeader(out: seq<Byte>, id: U16, flags: U16)
    requires |out| >= 4 && out[..2] == Be16(id) && out[2..4] == Be16(flags) && flags >= 0x8000
    ensures ReadBe16(AsQuery(out), 0) == Some(id) && ReadBe16(AsQuery(out), 2) == Some(flags - 0x8000)
  {
  }

  lemma FlagFields(f: U16, opcode: nat, rd: nat, rcode: nat)
    requires opcode < 16 && rd < 2 && rcode < 16
    requires f == opcode * 0x800 + rd * 0x100 + 0x80 + rcode
    ensures Opcode(f) == opcode && (RecursionDesired(f) <==> rd == 1)
    ensures RecursionAvailable(f) && Rcode(f) == rcode && f / 0x200 % 4 == 0 && f / 0x10 % 8 == 0
  {
    DivModUnique(f, 0x800, opcode, rd * 0x100 + 0x80 + rcode);
    DivModUnique(f, 0x100, 8 * opcode + rd, 0x80 + rcode);
    DivModUnique(f, 0x200, 4 * opcode, rd * 0x100 + 0x80 + rcode);
    DivModUnique(f, 0x80, 16 * opcode + 2 * rd + 1, rcode);
    DivModUnique(f, 0x10, 128 * opcode + 16 * rd + 8, rcode);
  }

  /** Every response to an accepted query is refused as a query itself, and with the QR
      bit cleared it asks the same question under the same id: opcode and RD are kept,
      RA and the response code are set, and the other flags are clear. */
  lemma ResponseEchoes(q: Query, rcode: U16, answers: seq<Byte>, ancount: U16)
    requires Accepted(q) && rcode < 16
    ensures var out := Response(q, rcode, answers, ancount);
      && Parse(out) == Err(NotAQuery)
      && Parse(AsQuery(out)).Ok?
      && WireName(AsQuery(out)) == WireName(q.raw)
      && var echo := Parse(AsQuery(out)).value;
        && echo.id == q.id && echo.question == q.question
        && Opcode(echo.flags) == Opcode(q.flags)
        && RecursionDesired(echo.flags) == RecursionDesired(q.flags)
        && RecursionAvailable(echo.flags) && Rcode(echo.flags) == rcode
        && echo.flags / 0x200 % 4 == 0 && echo.flags / 0x10 % 8 == 0
  {
    ResponseIsNotAQuery(q, rcode, answers, ancount);
    EchoParses(q, rcode, answers, ancount);
    FlagFields(ResponseFlags(q.flags, rcode) - 0x8000, Opcode(q.flags), q.flags / 0x100 % 2, rcode);
  }

  lemma EchoAsks(q: Query, out: seq<Byte>, labels: seq<seq<Byte>>)
    requires Asks(q.raw, labels) && q.question.end == HEADER_LEN + |EncodeLabels(labels)| + 5 <= |out|
    requires out[4..6] == [0, 1] && out[HEADER_LEN..q.question.end] == QuestionBytes(q)
    ensures Asks(AsQuery(out), labels)
  {
    hide EncodeLabels, WireLabels;
    var n, echo := |EncodeLabels(labels)|, AsQuery(out);
    assert echo[HEADER_LEN..q.question.end] == out[HEADER_LEN..q.question.end] && echo[4..6] == out[4..6];
    SubSlice(q.raw, HEADER_LEN, q.question.end, n);
    SubSlice(echo, HEADER_LEN, q.question.end, n);
  }

  lemma SubSlice(s: seq<Byte>, from: nat, to: nat, n: nat)
    requires from + n < to <= |s|
    ensures s[from..to][..n] == s[from..from + n] && s[from..to][n] == s[from + n]
  {
  }

  lemma SameReads(a: seq<Byte>, b: seq<Byte>, end: nat)
    requires HEADER_LEN + 4 <= end <= |a| && end <= |b| && a[HEADER_LEN..end] == b[HEADER_LEN..end]
    ensures ReadBe16(a, end - 4) == ReadBe16(b, end - 4) && ReadBe16(a, end - 2) == ReadBe16(b, end - 2)
  {
    var m, n := a[HEADER_LEN..end], b[HEADER_LEN..end];
    assert forall i :: 0 <= i < |m| ==> m[i] == a[HEADER_LEN + i] && n[i] == b[HEADER_LEN + i];
    assert m[|m| - 4] == n[|m| - 4] && m[|m| - 3] == n[|m| - 3];
    assert m[|m| - 2] == n[|m| - 2] && m[|m| - 1] == n[|m| - 1];
  }

  /** `formerr`: a bare header, written into place over zeros. */
  method Formerr(raw: seq<Byte>) returns (reply: seq<Byte>)
    ensures reply == FormerrBytes(raw)
  {
    var out := new Byte[HEADER_LEN](_ => 0);
    if |raw| >= 2 {
      out[0], out[1] := raw[0], raw[1];
    }
    var word := Be16(FormerrFlags());
    out[2], out[3] := word[0], word[1];
    reply := out[..];
  }

  function FormerrFlags(): (r: U16)
    ensures r == 0x8001
  {
    Powers();
    OrField(1, RCODE_FORMERR, 15, 0x8000);
    BitOr(FLAG_QR, RCODE_FORMERR)
  }

  function FormerrBytes(raw: seq<Byte>): (reply: seq<Byte>)
    ensures |reply| == HEADER_LEN
  {
    (if |raw| >= 2 then raw[..2] else [0, 0]) + [0x80, 0x01, 0, 0, 0, 0, 0, 0, 0, 0]
  }

  /** A bare FORMERR header that echoes the id when there is one; never itself a query. */
  lemma FormerrIs(raw: seq<Byte>)
    ensures var reply := FormerrBytes(raw);
      && reply[..2] == (if |raw| >= 2 then raw[..2] else [0, 0])
      && ReadBe16(reply, 2) == Some(FormerrFlags()) && Rcode(FormerrFlags()) == RCODE_FORMERR
      && (forall i :: 4 <= i < HEADER_LEN ==> reply[i] == 0)
      && Parse(reply) == Err(NotAQuery)
  {
    hide ScanName, BitAnd;
    QueryBit(FormerrBytes(raw));
  }
}
