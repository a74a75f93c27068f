/** The nscd front-end: what a request gets, and what reaches the real nscd. */
module NscdFrontend {
  import opened Bytes
  import opened Net
  import opened Policy
  import opened NscdProtocol
  import opened NscdReply
  import Utf8

  datatype Frontend = Frontend(engine: Engine, local: Str -> seq<Ip>)

  /** What the real nscd may do with a forwarded request: not be there, take the request
      and fail or stay silent past the deadline, or send any bytes and close. */
  datatype Upstream = Unreachable | Silent | Replied(bytes: seq<Byte>)

  datatype Reply = Bytes(bytes: seq<Byte>) | Close

  datatype Outcome = Outcome(reply: Reply, sent: seq<seq<Byte>>)

  function Sent(r: Request, up: Upstream): seq<seq<Byte>> {
    if up.Unreachable? then [] else [r.raw]
  }

  /** `forward_host`: only a usable reply is relayed. */
  function ForwardHost(r: Request, up: Upstream): Outcome {
    var reply := if up.Replied? && ValidHostReply(r.ty, up.bytes) then up.bytes else NotFound(r.ty, TRY_AGAIN);
    Outcome(Bytes(reply), Sent(r, up))
  }

  /** `reply_for`. */
  ghost function ReplyFor(front: Frontend, r: Request, caller: Caller, up: Upstream): Outcome {
    if !IsHostLookup(r.ty) then
      Outcome(if up.Replied? then Bytes(up.bytes) else Close, Sent(r, up))
    else match Hostname(r)
      case None => Outcome(Close, [])
      case Some(name) =>
        match Decide(front.engine, front.local, name, caller)
        case Refuse(_) => Outcome(Bytes(NotFound(r.ty, HOST_NOT_FOUND)), [])
        case HandOn => ForwardHost(r, up)
        case AnswerWith(addrs) => Outcome(Bytes(Found(r.ty, name, addrs)), [])
  }

  /** The counts in a positive reply with these addresses fit an `int32`: the size of all
      of them for GETAI, the number of those of the asked family otherwise. */
  ghost predicate CountsFit(ty: RequestType, addrs: seq<Ip>) {
    if ty == GetAi then |Packed(addrs)| < 0x8000_0000
    else |OfFamily(addrs, ty != GetHostByName)| < 0x8000_0000
  }

  /** If the name is answered from local records, then with counts that fit. */
  ghost predicate AnswerCountsFit(front: Frontend, ty: RequestType, name: Str, caller: Caller) {
    Decide(front.engine, front.local, name, caller).AnswerWith? ==> CountsFit(ty, front.local(name))
  }

  lemma FoundIsValid(ty: RequestType, name: Str, addrs: seq<Ip>)
    requires IsHostLookup(ty) && |name| <= MAX_KEY_LEN && CountsFit(ty, addrs)
    ensures ValidHostReply(ty, Found(ty, name, addrs)) && Complete(ty, Found(ty, name, addrs))
    ensures IntAt(Found(ty, name, addrs), 4) in {Some(0), Some(1)}
  {
    hide ValidHostReply, AiReply, HstReply, IntAt, Packed, Complete, OfFamily;
    assert Complete(ty, Found(ty, name, addrs)) && IntAt(Found(ty, name, addrs), 4) in {Some(0), Some(1)} by {
      if ty == GetAi {
        AiFoundIff(name, addrs);
      } else {
        var found := HstFound(name, ty != GetHostByName, addrs);
        if found.Some? { HstFoundComplete(ty, name, addrs); } else { NotFoundIs(ty, NO_DATA); }
      }
    }
    CompleteIsValid(ty, Found(ty, name, addrs));
  }

  lemma CompleteIsValid(ty: RequestType, reply: seq<Byte>)
    ensures Complete(ty, reply) ==> ValidHostReply(ty, reply)
  {
  }

  lemma ValidSaysFound(ty: RequestType, reply: seq<Byte>)
    requires ValidHostReply(ty, reply)
    ensures IntAt(reply, 4) in {Some(0), Some(1)}
  {
  }

  /** A host request with a usable name always gets a complete positive or negative
      reply, whatever the policy says and whatever the real nscd does: never a close,
      never the `found == -1` that would send glibc past the policy. */
  lemma HostReplyIsAlwaysUsable(front: Frontend, r: Request, caller: Caller, up: Upstream)
    requires IsHostLookup(r.ty) && Hostname(r).Some? && |r.key| <= MAX_KEY_LEN
    requires AnswerCountsFit(front, r.ty, Hostname(r).value, caller)
    ensures var reply := ReplyFor(front, r, caller, up).reply;
      reply.Bytes? && ValidHostReply(r.ty, reply.bytes) && IntAt(reply.bytes, 4) in {Some(0), Some(1)}
  {
    hide ValidHostReply, Found, NotFound, IntAt, Packed, Hostname, Evaluate, Complete;
    var name := Hostname(r).value;
    NotFoundIs(r.ty, HOST_NOT_FOUND);
    NotFoundIs(r.ty, TRY_AGAIN);
    CompleteIsValid(r.ty, NotFound(r.ty, HOST_NOT_FOUND));
    CompleteIsValid(r.ty, NotFound(r.ty, TRY_AGAIN));
    if Decide(front.engine, front.local, name, caller).AnswerWith? { FoundIsValid(r.ty, name, front.local(name)); }
    if up.Replied? && ValidHostReply(r.ty, up.bytes) { ValidSaysFound(r.ty, up.bytes); }
  }

  /** A host request is closed exactly when it carries no usable name. */
  lemma ClosedIff(front: Frontend, r: Request, caller: Caller, up: Upstream)
    requires IsHostLookup(r.ty)
    ensures ReplyFor(front, r, caller, up).reply == Close <==> Hostname(r).None?
  {
  }

  /** A denial is "host not found", sent to nobody else and independent of nscd. */
  lemma DeniedIsHostNotFound(front: Frontend, r: Request, caller: Caller, up: Upstream)
    requires IsHostLookup(r.ty) && Hostname(r).Some?
    requires Evaluate(front.engine, Hostname(r).value, caller).Denied?
    ensures var out := ReplyFor(front, r, caller, up);
      && out.sent == [] && out.reply.Bytes? && IntAt(out.reply.bytes, 4) == Some(0)
      && IntAt(out.reply.bytes, if r.ty == GetAi then 20 else 28) == Some(HOST_NOT_FOUND)
      && Complete(r.ty, out.reply.bytes)
  {
    hide NotFound, IntAt, Complete, Evaluate, Hostname;
    NotFoundIs(r.ty, HOST_NOT_FOUND);
  }

  /** What reaches the real nscd is the request verbatim, and a host request only when
      the policy did not deny it. */
  lemma NscdSeesOnlyCleared(front: Frontend, r: Request, caller: Caller, up: Upstream)
    ensures var sent := ReplyFor(front, r, caller, up).sent;
      && (sent == [] || sent == [r.raw])
      && (sent != [] && IsHostLookup(r.ty) ==>
            Hostname(r).Some? && !Evaluate(front.engine, Hostname(r).value, caller).Denied?)
  {
    hide NotFound, Found, ValidHostReply, Evaluate, Hostname;
  }

  /** What the client decodes for an allowed name with local records: exactly the
      records of the asked family, or "no data" when there are none. */
  lemma LocalRecordsDecode(front: Frontend, r: Request, caller: Caller, up: Upstream)
    requires IsHostLookup(r.ty) && Hostname(r).Some? && |r.key| <= MAX_KEY_LEN
    requires AnswerCountsFit(front, r.ty, Hostname(r).value, caller)
    requires Decide(front.engine, front.local, Hostname(r).value, caller).AnswerWith?
    ensures var name, reply := Hostname(r).value, ReplyFor(front, r, caller, up).reply;
      var addrs := front.local(name);
      && reply.Bytes?
      && (r.ty == GetAi ==> DecodeAi(reply.bytes) == Some(Positive(name, addrs)))
      && (r.ty != GetAi ==>
            var wanted := OfFamily(addrs, r.ty == GetHostByNameV6);
            DecodeHst(reply.bytes) == Some(if wanted == [] then Negative(NO_DATA) else Positive(name, wanted)))
  {
    hide AiReply, IntAt, Packed, Hostname, Evaluate, OfFamily, DecodeAi, DecodeHst, HstReply;
    var name := Hostname(r).value;
    var addrs := front.local(name);
    if r.ty == GetAi {
      AiRoundTrip(name, addrs);
    } else if HstFound(name, r.ty == GetHostByNameV6, addrs).Some? {
      HstRoundTrip(name, r.ty == GetHostByNameV6, addrs);
    } else {
      NegativeDecodes(NO_DATA);
    }
  }

  lemma NegativeDecodes(error: I32)
    ensures DecodeHst(HstNotFound(error)) == Some(Negative(error))
    ensures DecodeAi(AiNotFound(error)) == Some(Negative(error))
  {
    hide IntAt, HstHeader, AiHeader;
    HstHeaderInts(0, 0, -1, -1, 0, error, []);
    AiHeaderInts(0, 0, 0, 0, error, []);
    assert HstNotFound(error) == HstHeader(0, 0, -1, -1, 0, error) + [];
    assert AiNotFound(error) == AiHeader(0, 0, 0, 0, error) + [];
  }

  // ---- A whole exchange -----------------------------------------------------------------

  /** `handle`: one request per connection; a bad or late one is closed. */
  ghost function Handle(front: Frontend, stream: seq<Byte>, caller: Caller, up: Upstream): Outcome {
    match ReadRequest(stream)
    case Err(_) => Outcome(Close, [])
    case Ok(Read(r, _)) => ReplyFor(front, r, caller, up)
  }

  /** Every request that is not a host lookup passes through as if nothing stood between
      the client and nscd: what reaches nscd is what the client wrote, what the client reads
      is what nscd replied, and neither policy nor caller can change that. */
  lemma OtherRequestsAreVerbatim(front: Frontend, ty: RequestType, key: seq<Byte>, rest: seq<Byte>,
                                 caller: Caller, up: Upstream)
    requires !IsHostLookup(ty) && |key| <= MAX_KEY_LEN
    ensures var raw := Encode(ty, key);
      var out := Handle(front, raw + rest, caller, up);
      && (up.Unreachable? ==> out == Outcome(Close, []))
      && (up.Silent? ==> out == Outcome(Close, [raw]))
      && (up.Replied? ==> out == Outcome(Bytes(up.bytes), [raw]))
  {
    hide ReadRequest, Encode;
    ReadInvertsEncode(ty, key, rest);
  }

  /** The stream starts with a well-formed host request for a usable name. */
  predicate NamesAHost(stream: seq<Byte>) {
    var r := ReadRequest(stream);
    r.Ok? && IsHostLookup(r.value.request.ty) && Hostname(r.value.request).Some?
  }

  lemma TwoPolicies(stream: seq<Byte>, strict: Frontend, lax: Frontend)
    requires NamesAHost(stream)
    requires strict.engine == Engine([], map[], DefaultDeny) && lax.engine == Engine([], map[], DefaultPassthrough)
    ensures Handle(strict, stream, UNKNOWN, Silent).sent == []
    ensures Handle(lax, stream, UNKNOWN, Silent).sent != []
  {
    hide ReadRequest, Hostname, ValidHostReply, NotFound, Found;
  }

  lemma NoNameNoPolicy(stream: seq<Byte>, front: Frontend, other: Frontend,
                       caller: Caller, someone: Caller, up: Upstream)
    requires !NamesAHost(stream)
    ensures Handle(front, stream, caller, up) == Handle(other, stream, someone, up)
  {
    hide ReadRequest, Hostname, Decide, ForwardHost, NotFound, Found;
  }

  /** Policy and caller have a say over a connection exactly when it names a host; all
      other connections go the same way under every policy and for every caller. */
  lemma PolicyMattersIff(stream: seq<Byte>)
    ensures NamesAHost(stream) <==>
      exists front, other, caller, up :: Handle(front, stream, caller, up) != Handle(other, stream, caller, up)
    ensures !NamesAHost(stream) ==>
      forall front, other, caller, someone, up ::
        Handle(front, stream, caller, up) == Handle(other, stream, someone, up)
  {
    hide Handle;
    if NamesAHost(stream) {
      var strict := Frontend(Engine([], map[], DefaultDeny), _ => []);
      var lax := Frontend(Engine([], map[], DefaultPassthrough), _ => []);
      TwoPolicies(stream, strict, lax);
      assert Handle(strict, stream, UNKNOWN, Silent) != Handle(lax, stream, UNKNOWN, Silent);
    } else {
      forall front, other, caller, someone, up
        ensures Handle(front, stream, caller, up) == Handle(other, stream, someone, up)
      {
        NoNameNoPolicy(stream, front, other, caller, someone, up);
      }
    }
  }

  function Decode(ty: RequestType, reply: seq<Byte>): Option<Answer> {
    if ty == GetAi then DecodeAi(reply) else DecodeHst(reply)
  }

  /** What a client makes of the reply to a host request for a name: "host not found" when
      the policy denies it, the local records of the asked family when it is allowed and
      there are any, and otherwise what the real nscd said, verbatim, or "try again". */
  ghost predicate ReadsAs(decision: Decision, ty: RequestType, name: Str, up: Upstream, reply: seq<Byte>) {
    match decision
    case Refuse(_) => Decode(ty, reply) == Some(Negative(HOST_NOT_FOUND))
    case AnswerWith(addrs) =>
      var wanted := if ty == GetAi then addrs else OfFamily(addrs, ty == GetHostByNameV6);
      Decode(ty, reply) == Some(if wanted == [] then Negative(NO_DATA) else Positive(name, wanted))
    case HandOn =>
      if up.Replied? && ValidHostReply(ty, up.bytes) then reply == up.bytes
      else Decode(ty, reply) == Some(Negative(TRY_AGAIN))
  }

  lemma ReplyDecodes(front: Frontend, r: Request, caller: Caller, up: Upstream)
    requires IsHostLookup(r.ty) && Hostname(r).Some? && |r.key| <= MAX_KEY_LEN
    requires AnswerCountsFit(front, r.ty, Hostname(r).value, caller)
    ensures var out, name := ReplyFor(front, r, caller, up), Hostname(r).value;
      out.reply.Bytes? && ReadsAs(Decide(front.engine, front.local, name, caller), r.ty, name, up, out.reply.bytes)
  {
    hide Hostname, Evaluate, ValidHostReply, AiReply, HstReply, DecodeAi, DecodeHst, OfFamily, Found, AnswerCountsFit;
    NegativeDecodes(HOST_NOT_FOUND);
    NegativeDecodes(TRY_AGAIN);
    if Decide(front.engine, front.local, Hostname(r).value, caller).AnswerWith? {
      LocalRecordsDecode(front, r, caller, up);
    }
  }

  /** A whole exchange, from the bytes glibc writes for a name to what it reads back. */
  lemma ExchangeDecodes(front: Frontend, ty: RequestType, name: Str, caller: Caller, up: Upstream)
    requires IsHostLookup(ty) && Utf8.Valid(name) && name != [] && |name| + 1 <= MAX_KEY_LEN
    requires AnswerCountsFit(front, ty, name, caller)
    ensures var out := Handle(front, Encode(ty, name + [0]), caller, up);
      var decision := Decide(front.engine, front.local, name, caller);
      && out.reply.Bytes? && ValidHostReply(ty, out.reply.bytes)
      && ReadsAs(decision, ty, name, up, out.reply.bytes)
      && (out.sent != [] ==> decision == HandOn && out.sent == [Encode(ty, name + [0])])
  {
    hide ReadRequest, Hostname, ValidHostReply, Encode, Utf8.Valid, AnswerCountsFit, ReadsAs, ReplyFor, Decide;
    var raw := Encode(ty, name + [0]);
    assert raw + [] == raw;
    GlibcRequestIsUnderstood(ty, name, []);
    var r := Request(ty, name + [0], raw);
    HostReplyIsAlwaysUsable(front, r, caller, up);
    ReplyDecodes(front, r, caller, up);
    SentIfHandedOn(front, r, caller, up);
  }

  lemma SentIfHandedOn(front: Frontend, r: Request, caller: Caller, up: Upstream)
    requires IsHostLookup(r.ty) && Hostname(r).Some?
    ensures var sent := ReplyFor(front, r, caller, up).sent;
      sent != [] ==> Decide(front.engine, front.local, Hostname(r).value, caller) == HandOn && sent == [r.raw]
  {
    hide Hostname, Decide, NotFound, Found, ValidHostReply;
  }
}
