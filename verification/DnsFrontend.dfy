/** The DNS front-end: what a message gets, and what is sent upstream for it. */
module DnsFrontend {
  import opened Bytes
  import opened Net
  import opened Policy
  import opened Relay
  import opened Identify
  import opened DnsMessage
  import opened DnsRecords
  import opened Framing

  const MAX_MESSAGE := 65535

  datatype Transport = Udp | Tcp

  datatype UdpEvent = Datagram(bytes: seq<Byte>) | RecvFailed

  /** Everything an upstream server may do: be unreachable, send datagrams, fail, fall
      silent (the events run out before the deadline), or write any bytes on a stream. */
  datatype Upstream = Upstream(reachable: bool, udp: seq<UdpEvent>, tcp: seq<Byte>, ending: Ending)

  /** A message received from a peer, with what the daemon finds out about the peer and
      what the upstream would do. `inspected` is false when the blocking task died. */
  datatype Arrival = Arrival(raw: seq<Byte>, peer: SocketAddr, server: SocketAddr, transport: Transport,
                             table: seq<SocketEntry>, processOf: nat -> Option<Process>, inspected: bool,
                             upstream: Upstream)

  datatype Frontend = Frontend(engine: Engine, relays: Relays, identifyProcesses: bool, local: Str -> seq<Ip>)

  // ---- Forwarding ----------------------------------------------------------------

  /** A datagram as it ends up in the receive buffer. */
  function Received(bytes: seq<Byte>): (r: seq<Byte>)
    ensures r <= bytes && |r| <= MAX_MESSAGE
  {
    if |bytes| <= MAX_MESSAGE then bytes else bytes[..MAX_MESSAGE]
  }

  /** It carries the id of our query, and is not a stray. */
  predicate Answers(raw: seq<Byte>, d: seq<Byte>) {
    |raw| >= 2 && |d| >= 2 && d[..2] == raw[..2]
  }

  /** The first datagram that answers, unless the socket fails or falls silent first. */
  function FirstAnswer(raw: seq<Byte>, events: seq<UdpEvent>): (r: Option<seq<Byte>>)
    ensures r.Some? ==> Answers(raw, r.value)
  {
    if events == [] || events[0].RecvFailed? then None
    else if Answers(raw, Received(events[0].bytes)) then Some(Received(events[0].bytes))
    else FirstAnswer(raw, events[1..])
  }

  /** `forward_udp`: receive until a datagram carries the query's id. */
  method ForwardUdp(raw: seq<Byte>, events: seq<UdpEvent>) returns (r: Option<seq<Byte>>)
    requires |raw| >= 2
    ensures r == FirstAnswer(raw, events)
  {
    var i := 0;
    while i < |events|
      invariant 0 <= i <= |events|
      invariant FirstAnswer(raw, events) == FirstAnswer(raw, events[i..])
    {
      assert events[i..][1..] == events[i + 1..];
      if events[i].RecvFailed? {
        return None;
      }
      var d := Received(events[i].bytes);
      if |d| >= 2 && d[..2] == raw[..2] {
        return Some(d);
      }
      i := i + 1;
    }
    return None;
  }

  /** Datagram k answers and none before it does, nor did the socket fail before it. */
  ghost predicate AnswersFirst(raw: seq<Byte>, events: seq<UdpEvent>, k: nat, d: seq<Byte>) {
    && k < |events| && events[k].Datagram? && Received(events[k].bytes) == d && Answers(raw, d)
    && forall j :: 0 <= j < k ==> events[j].Datagram? && !Answers(raw, Received(events[j].bytes))
  }

  lemma AnswersFirstTail(raw: seq<Byte>, events: seq<UdpEvent>, k: nat, d: seq<Byte>)
    requires events != [] && k > 0
    ensures AnswersFirst(raw, events, k, d)
       <==> events[0].Datagram? && !Answers(raw, Received(events[0].bytes)) && AnswersFirst(raw, events[1..], k - 1, d)
  {
  }

  /** Exactly which datagram is relayed: the first one that carries the query's id. */
  lemma {:induction false} FirstAnswerIff(raw: seq<Byte>, events: seq<UdpEvent>, d: seq<Byte>)
    ensures FirstAnswer(raw, events) == Some(d) <==> exists k :: AnswersFirst(raw, events, k, d)
  {
    hide Received, Answers;
    if events != [] {
      FirstAnswerIff(raw, events[1..], d);
      if k: nat :| AnswersFirst(raw, events, k, d) {
        if k > 0 { AnswersFirstTail(raw, events, k, d); }
      }
      if FirstAnswer(raw, events) == Some(d) {
        if Answers(raw, Received(events[0].bytes)) {
          assert AnswersFirst(raw, events, 0, d);
        } else {
          var k: nat :| AnswersFirst(raw, events[1..], k, d);
          AnswersFirstTail(raw, events, k + 1, d);
        }
      }
    }
  }

  /** `forward`: the upstream's reply over the client's transport, or SERVFAIL. Over
      TCP whatever message comes back is relayed. */
  function ForwardReply(q: Query, transport: Transport, up: Upstream): seq<Byte>
    requires HEADER_LEN <= q.question.end <= |q.raw|
  {
    if !up.reachable then Servfail(q)
    else match transport
      case Udp => (match FirstAnswer(q.raw, up.udp)
                   case Some(d) => d
                   case None => Servfail(q))
      case Tcp => (match ReadMessage(up.tcp, up.ending)
                   case Message(m, _) => m
                   case _ => Servfail(q))
  }

  // ---- Responding ----------------------------------------------------------------

  /** The name the policy judges: the root has no labels and is known as ".". */
  function Hostname(q: Query): Str {
    if q.question.name == [] then ROOT else q.question.name
  }

  ghost function CallerOf(front: Frontend, a: Arrival): Caller {
    if a.inspected then IdentifyCaller(a.table, a.processOf, a.peer, a.server, front.identifyProcesses) else UNKNOWN
  }

  /** Relays are handed on unjudged; everyone else gets the policy's decision. */
  ghost function Judge(front: Frontend, hostname: Str, caller: Caller): Decision {
    if front.relays.Contains(caller) then HandOn else Decide(front.engine, front.local, hostname, caller)
  }

  datatype Outcome = Outcome(reply: seq<Byte>, sent: seq<seq<Byte>>)

  ghost function Act(q: Query, decision: Decision, transport: Transport, up: Upstream): Outcome
    requires HEADER_LEN <= q.question.end <= |q.raw|
  {
    match decision
    case Refuse(_) => Outcome(Nxdomain(q), [])
    case HandOn => Outcome(ForwardReply(q, transport, up), if up.reachable then [q.raw] else [])
    case AnswerWith(addrs) => Outcome(Answer(q, addrs), [])
  }

  /** `respond`. */
  ghost function Respond(front: Frontend, a: Arrival): Outcome {
    match Parse(a.raw)
    case Err(_) => Outcome(FormerrBytes(a.raw), [])
    case Ok(q) =>
      AcceptedDecomposes(a.raw);
      Act(q, Judge(front, Hostname(q), CallerOf(front, a)), a.transport, a.upstream)
  }

  /** Sending upstream takes an accepted query and a decision to hand it on. */
  lemma SentOnlyIfHandedOn(front: Frontend, a: Arrival)
    ensures Respond(front, a).sent != [] ==>
      && Respond(front, a).sent == [a.raw] && Parse(a.raw).Ok?
      && Judge(front, Hostname(Parse(a.raw).value), CallerOf(front, a)) == HandOn
  {
    hide Parse, Judge, CallerOf, ForwardReply, Nxdomain, Answer;
    if Parse(a.raw).Ok? { AcceptedDecomposes(a.raw); }
  }

  /** Some row fits, and every best-fitting row belongs to this user. */
  ghost predicate OwnedBy(a: Arrival, uid: U32) {
    && a.inspected
    && (exists e :: e in a.table && Best(a.table, e, a.peer, a.server))
    && (forall e :: e in a.table && Best(a.table, e, a.peer, a.server) ==> e.uid == uid)
  }

  ghost predicate RelayRows(front: Frontend, a: Arrival) {
    exists uid <- front.relays.uids :: OwnedBy(a, uid)
  }

  /** A caller is relayed exactly when the best-fitting rows are all a relay user's. */
  lemma RelayedIff(front: Frontend, a: Arrival)
    ensures front.relays.Contains(CallerOf(front, a)) <==> RelayRows(front, a)
  {
    hide IdentifyCaller, Best;
    var caller := CallerOf(front, a);
    forall uid: U32 ensures caller.uid == Some(uid) <==> OwnedBy(a, uid) {
      IdentifiedIff(a.table, a.processOf, a.peer, a.server, front.identifyProcesses, uid);
    }
  }

  // ---- Whole runs ------------------------------------------------------------------

  /** Everything sent upstream while serving a sequence of messages. */
  ghost function Trace(front: Frontend, arrivals: seq<Arrival>): seq<seq<Byte>> {
    if arrivals == [] then [] else Respond(front, arrivals[0]).sent + Trace(front, arrivals[1..])
  }

  /** This message was received, parsed as one question, and either came from a relay's
      socket or was not denied to whoever sent it. */
  ghost predicate Cleared(front: Frontend, a: Arrival, m: seq<Byte>) {
    && a.raw == m && Parse(m).Ok?
    && (RelayRows(front, a)
        || !Evaluate(front.engine, Hostname(Parse(m).value), CallerOf(front, a)).Denied?)
  }

  /** Over every run, the upstream sees only cleared messages, byte for byte. */
  lemma {:induction false} UpstreamSeesOnlyCleared(front: Frontend, arrivals: seq<Arrival>)
    ensures forall m <- Trace(front, arrivals) :: exists a <- arrivals :: Cleared(front, a, m)
  {
    hide Respond, Cleared;
    if arrivals != [] {
      var first, rest := arrivals[0], arrivals[1..];
      SentIsCleared(front, first);
      UpstreamSeesOnlyCleared(front, rest);
      forall m | m in Trace(front, arrivals) ensures exists a <- arrivals :: Cleared(front, a, m) {
        if m in Respond(front, first).sent {
          assert Cleared(front, first, m);
        } else {
          assert m in Trace(front, rest);
          var a :| a in rest && Cleared(front, a, m);
          assert a in arrivals;
        }
      }
    }
  }

  lemma SentIsCleared(front: Frontend, a: Arrival)
    ensures forall m <- Respond(front, a).sent :: Cleared(front, a, m)
  {
    hide Respond, Parse, CallerOf, RelayRows, Judge;
    SentOnlyIfHandedOn(front, a);
    if Respond(front, a).sent != [] {
      HandedOnMeans(front, a, Hostname(Parse(a.raw).value));
    }
  }

  lemma HandedOnMeans(front: Frontend, a: Arrival, hostname: Str)
    requires Judge(front, hostname, CallerOf(front, a)) == HandOn
    ensures RelayRows(front, a) || !Evaluate(front.engine, hostname, CallerOf(front, a)).Denied?
  {
    hide CallerOf, RelayRows, Evaluate;
    RelayedIff(front, a);
  }

  /** Unless the message is handed on, the upstream cannot influence the reply, and
      nothing is sent. */
  lemma UpstreamCannotInfluence(front: Frontend, a: Arrival, up: Upstream)
    requires Parse(a.raw).Ok? ==> Judge(front, Hostname(Parse(a.raw).value), CallerOf(front, a)) != HandOn
    ensures Respond(front, a.(upstream := up)) == Respond(front, a)
    ensures Respond(front, a).sent == []
  {
  }

  /** A denied query gets NXDOMAIN for its own question, whatever the upstream does. */
  lemma DeniedGetsNxdomain(front: Frontend, a: Arrival)
    requires Parse(a.raw).Ok? && !RelayRows(front, a)
    requires Evaluate(front.engine, Hostname(Parse(a.raw).value), CallerOf(front, a)).Denied?
    ensures var q, out := Parse(a.raw).value, Respond(front, a);
      && out.sent == [] && |out.reply| == q.question.end
      && Parse(AsQuery(out.reply)).Ok?
      && var echo := Parse(AsQuery(out.reply)).value;
         echo.id == q.id && echo.question == q.question && Rcode(echo.flags) == RCODE_NXDOMAIN
  {
    hide Parse, CallerOf, Evaluate, RelayRows, Response;
    var q := Parse(a.raw).value;
    AcceptedDecomposes(a.raw);
    RelayedIff(front, a);
    ResponseEchoes(q, RCODE_NXDOMAIN, [], 0);
  }

  /** An allowed name with local records is answered from them alone: a decoder that
      follows the header reads back the records of the asked type, owned by the question's
      name, and nothing else. */
  lemma LocalRecordsAreAnswered(front: Frontend, a: Arrival)
    requires Parse(a.raw).Ok?
    requires Judge(front, Hostname(Parse(a.raw).value), CallerOf(front, a)).AnswerWith?
    requires |Matching(front.local(Hostname(Parse(a.raw).value)), Parse(a.raw).value.question.qtype)| < 0x1_0000
    ensures var q, out := Parse(a.raw).value, Respond(front, a);
      var wanted := Matching(front.local(Hostname(q)), q.question.qtype);
      && out.sent == [] && |out.reply| >= HEADER_LEN
      && ReadAnswers(out.reply, q.question.end)
         == Some(Section(Expected(WireName(a.raw), q.question.qtype, wanted), |out.reply|))
  {
    hide Parse, CallerOf, Evaluate, Answer, ReadAnswers, Matching, WireName;
    var q := Parse(a.raw).value;
    AcceptedDecomposes(a.raw);
    AnswerDecodes(q, front.local(Hostname(q)));
    AnswerRoundTrip(q, front.local(Hostname(q)));
  }

  /** The upstream never answers usably: unreachable, or no datagram carries the id
      before a failure or silence, or no whole message arrives on the stream. */
  ghost predicate NoAnswer(q: Query, transport: Transport, up: Upstream) {
    || !up.reachable
    || (transport == Udp && forall d :: FirstAnswer(q.raw, up.udp) != Some(d))
    || (transport == Tcp && !ReadMessage(up.tcp, up.ending).Message?)
  }

  /** A query handed on gets the upstream's bytes verbatim, or SERVFAIL for its own
      question when there is no answer. */
  lemma HandedOnGetsAnswerOrServfail(q: Query, transport: Transport, up: Upstream)
    requires Accepted(q)
    ensures var reply := Act(q, HandOn, transport, up).reply;
      && (NoAnswer(q, transport, up) ==>
            && Parse(AsQuery(reply)).Ok?
            && var echo := Parse(AsQuery(reply)).value;
               echo.id == q.id && echo.question == q.question && Rcode(echo.flags) == RCODE_SERVFAIL)
      && (!NoAnswer(q, transport, up) ==>
            if transport == Udp then exists k :: AnswersFirst(q.raw, up.udp, k, reply)
            else ReadMessage(up.tcp, up.ending) == Message(reply, ReadMessage(up.tcp, up.ending).rest))
  {
    hide Parse, Response, FirstAnswer, ReadMessage, AnswersFirst;
    ResponseEchoes(q, RCODE_SERVFAIL, [], 0);
    var reply := Act(q, HandOn, transport, up).reply;
    FirstAnswerIff(q.raw, up.udp, reply);
  }

  // ---- Ids ---------------------------------------------------------------------------

  lemma LocalReplyCarriesId(q: Query, rcode: U16, answers: seq<Byte>, ancount: U16)
    requires Accepted(q) && rcode < 16
    ensures Answers(q.raw, Response(q, rcode, answers, ancount))
  {
  }

  /** Over UDP the reply to any message with an id starts with that id. */
  lemma UdpReplyCarriesId(front: Frontend, a: Arrival)
    requires a.transport == Udp && |a.raw| >= 2
    ensures Answers(a.raw, Respond(front, a).reply)
  {
    hide Judge, CallerOf, Response, AllRecordBytes, Matching;
    FormerrIs(a.raw);
    if Parse(a.raw).Ok? {
      RepliesCarryId(a.raw, Judge(front, Hostname(Parse(a.raw).value), CallerOf(front, a)), Udp, a.upstream);
    }
  }

  /** The one exception: over TCP a forwarded reply is not checked for the id. */
  lemma RepliesCarryId(raw: seq<Byte>, decision: Decision, transport: Transport, up: Upstream)
    requires Parse(raw).Ok?
    ensures HEADER_LEN <= Parse(raw).value.question.end <= |Parse(raw).value.raw|
    ensures var reply := Act(Parse(raw).value, decision, transport, up).reply;
      !Answers(raw, reply) <==>
      && decision == HandOn && transport == Tcp && up.reachable
      && ReadMessage(up.tcp, up.ending).Message?
      && !Answers(raw, ReadMessage(up.tcp, up.ending).message)
  {
    hide Parse, Response, Answers, FirstAnswer, ReadMessage, Matching, AllRecordBytes;
    var q := Parse(raw).value;
    AcceptedDecomposes(raw);
    LocalReplyCarriesId(q, RCODE_NXDOMAIN, [], 0);
    LocalReplyCarriesId(q, RCODE_SERVFAIL, [], 0);
    if decision.AnswerWith? {
      var matching := Matching(decision.addrs, q.question.qtype);
      LocalReplyCarriesId(q, RCODE_NOERROR, AllRecordBytes(q.question.qtype, matching), |matching| % 0x1_0000);
    }
  }

  /** Over TCP the id is relayed unchecked: the reply carries it unless the upstream's
      framed message does not. */
  lemma TcpReplyIdIff(front: Frontend, a: Arrival)
    requires a.transport == Tcp && Parse(a.raw).Ok?
    ensures Answers(a.raw, Respond(front, a).reply) <==>
      !(&& Judge(front, Hostname(Parse(a.raw).value), CallerOf(front, a)) == HandOn && a.upstream.reachable
        && ReadMessage(a.upstream.tcp, a.upstream.ending).Message?
        && !Answers(a.raw, ReadMessage(a.upstream.tcp, a.upstream.ending).message))
  {
    hide Parse, Judge, CallerOf, Answers, ReadMessage, Nxdomain, Answer, ForwardReply;
    RepliesCarryId(a.raw, Judge(front, Hostname(Parse(a.raw).value), CallerOf(front, a)), Tcp, a.upstream);
  }

  /** And some upstream does send another id: an empty frame, for one. */
  lemma TcpIdUnchecked(front: Frontend, a: Arrival)
    requires a.transport == Tcp && Parse(a.raw).Ok?
    requires Judge(front, Hostname(Parse(a.raw).value), CallerOf(front, a)) == HandOn
    ensures !Answers(a.raw, Respond(front, a.(upstream := Upstream(true, [], [0, 0], Eof))).reply)
  {
    hide Parse, Judge, IdentifyCaller, Respond;
    TcpReplyIdIff(front, a.(upstream := Upstream(true, [], [0, 0], Eof)));
  }

  /** So over TCP the id is certain, whatever the upstream sends, exactly for the queries
      the front-end answers by itself. */
  lemma TcpIdGuaranteedIff(front: Frontend, a: Arrival)
    requires a.transport == Tcp && Parse(a.raw).Ok?
    ensures (forall up :: Answers(a.raw, Respond(front, a.(upstream := up)).reply))
       <==> Judge(front, Hostname(Parse(a.raw).value), CallerOf(front, a)) != HandOn
  {
    hide Parse, Judge, IdentifyCaller, Respond, Answers;
    if Judge(front, Hostname(Parse(a.raw).value), CallerOf(front, a)) == HandOn {
      TcpIdUnchecked(front, a);
    } else {
      forall up ensures Answers(a.raw, Respond(front, a.(upstream := up)).reply) {
        TcpReplyIdIff(front, a.(upstream := up));
      }
    }
  }

  /** A local answer to the message, if it gets one, fits a 16-bit length. */
  ghost predicate AnswerFits(front: Frontend, a: Arrival) {
    Parse(a.raw).Ok? ==>
      var q := Parse(a.raw).value;
      Judge(front, Hostname(q), CallerOf(front, a)).AnswerWith? ==>
        q.question.end + RecordsLen(q.question.qtype, |Matching(front.local(Hostname(q)), q.question.qtype)|) < 0x1_0000
  }

  /** Over TCP a reply fits its length prefix exactly unless it is a local answer of too
      many records. */
  lemma TcpReplyFitsIff(front: Frontend, a: Arrival)
    requires a.transport == Tcp
    ensures |Respond(front, a).reply| < 0x1_0000 <==> AnswerFits(front, a)
  {
    hide Parse, CallerOf, Evaluate, Matching, Answer, RecordsLen;
    if Parse(a.raw).Ok? {
      var q := Parse(a.raw).value;
      AcceptedDecomposes(a.raw);
      AnswerDecodes(q, front.local(Hostname(q)));
    }
  }

  /** Over TCP every reply fits its length prefix, as long as the daemon's own records
      for the asked name and type are few enough. */
  lemma TcpReplyFits(front: Frontend, a: Arrival)
    requires a.transport == Tcp
    requires Parse(a.raw).Ok? ==>
      var q := Parse(a.raw).value;
      |Matching(front.local(Hostname(q)), q.question.qtype)| <= if q.question.qtype == TYPE_AAAA then 2330 else 4078
    ensures |Respond(front, a).reply| < 0x1_0000
  {
    hide Parse, CallerOf, Evaluate, Matching, Answer;
    if Parse(a.raw).Ok? {
      var q := Parse(a.raw).value;
      AcceptedDecomposes(a.raw);
      LocalAnswerFits(q, front.local(Hostname(q)));
    }
  }

  // ---- A whole TCP session --------------------------------------------------------------

  /** A message as it arrives in its turn, under the circumstances of that moment: the
      socket table, the process search and the upstream. */
  function Turn(around: nat -> Arrival, i: nat, message: seq<Byte>): Arrival {
    around(i).(raw := message, transport := Tcp)
  }

  ghost function Responder(front: Frontend, around: nat -> Arrival): (nat, seq<Byte>) -> seq<Byte> {
    (i: nat, m: seq<Byte>) => Respond(front, Turn(around, i, m)).reply
  }

  /** A client that frames its queries on one connection and then closes it reads back
      what the front-end replies to each of them in turn, whole and in order, and then the
      end, however the world changes meanwhile: exactly when every local answer fits. */
  lemma TcpSession(front: Frontend, around: nat -> Arrival, queries: seq<seq<Byte>>)
    requires Framable(queries)
    ensures var replies := Replies(queries, Responder(front, around));
      var written := FrameAll(Replies(ReadAll(FrameAll(queries), Eof).messages, Responder(front, around)));
      && |replies| == |queries|
      && (forall i :: 0 <= i < |queries| ==> replies[i] == Respond(front, Turn(around, i, queries[i])).reply)
      && (ReadAll(written, Eof) == Transcript(replies, true)
          <==> forall i :: 0 <= i < |queries| ==> AnswerFits(front, Turn(around, i, queries[i])))
  {
    hide Respond, AnswerFits, ReadAll, FrameAll, Framable, Replies;
    var replies := Replies(queries, Responder(front, around));
    ConversationRoundTrip(queries, Responder(front, around));
    FramableIff(replies);
    forall i | 0 <= i < |queries|
      ensures |replies[i]| < 0x1_0000 <==> AnswerFits(front, Turn(around, i, queries[i]))
    {
      TcpReplyFitsIff(front, Turn(around, i, queries[i]));
    }
  }
}
