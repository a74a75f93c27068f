/** The NSS module and the policy socket it asks. */
module NssModule {
  import opened Bytes
  import opened Net
  import opened Policy
  import opened Relay

  // ---- The policy socket (src/daemon.rs) ----------------------------------------------

  datatype ResolveResponse = ResponseDenied(reason: Reason) | ResponsePassThrough | Resolved(addrs: seq<Ip>)

  datatype Daemon = Daemon(engine: Engine, relays: Relays, local: Str -> seq<Ip>)

  /** The answer to one well-formed request line. */
  ghost function Respond(daemon: Daemon, caller: Caller, hostname: Str): ResolveResponse {
    if daemon.relays.Contains(caller) then ResponsePassThrough
    else match Decide(daemon.engine, daemon.local, hostname, caller)
      case Refuse(reason) => ResponseDenied(reason)
      case HandOn => ResponsePassThrough
      case AnswerWith(addrs) => Resolved(addrs)
  }

  /** A request line, or a read that fails (bytes that are not UTF-8, say). */
  datatype Line = Text(text: Str) | Unreadable

  /** The host names asked for: those of the lines that decode, up to the first read that
      fails; a line that does not decode is skipped. */
  function Asked(lines: seq<Line>, decode: Str -> Option<Str>): seq<Str> {
    if lines == [] || lines[0].Unreadable? then []
    else (match decode(lines[0].text) case Some(h) => [h] case None => []) + Asked(lines[1..], decode)
  }

  ghost predicate Answered(daemon: Daemon, caller: Caller, asked: seq<Str>, responses: seq<ResolveResponse>) {
    |responses| == |asked| && forall i :: 0 <= i < |asked| ==> responses[i] == Respond(daemon, caller, asked[i])
  }

  lemma AnsweredSnoc(daemon: Daemon, caller: Caller, asked: seq<Str>, responses: seq<ResolveResponse>, hostname: Str)
    requires Answered(daemon, caller, asked, responses)
    ensures Answered(daemon, caller, asked + [hostname], responses + [Respond(daemon, caller, hostname)])
  {
    hide Respond;
  }

  lemma AskedAt(lines: seq<Line>, k: nat, decode: Str -> Option<Str>)
    requires k <= |lines|
    ensures Asked(lines[k..], decode) ==
      if k == |lines| || lines[k].Unreadable? then []
      else if decode(lines[k].text).Some? then [decode(lines[k].text).value] + Asked(lines[k + 1..], decode)
      else Asked(lines[k + 1..], decode)
  {
    if k < |lines| { assert lines[k..][1..] == lines[k + 1..]; }
  }

  /** One request; `relayed` says that the caller relays for another front-end. */
  method AnswerRequest(daemon: Daemon, caller: Caller, relayed: bool, hostname: Str) returns (resp: ResolveResponse)
    requires relayed == daemon.relays.Contains(caller)
    ensures resp == Respond(daemon, caller, hostname)
  {
    hide Evaluate;
    if relayed {
      return ResponsePassThrough;
    }
    var verdict := EvaluateFor(daemon.engine, hostname, caller);
    match verdict {
      case Denied(reason) => resp := ResponseDenied(reason);
      case PassThrough => resp := ResponsePassThrough;
      case Allowed =>
        var addrs := daemon.local(hostname);
        resp := if addrs == [] then ResponsePassThrough else Resolved(addrs);
    }
  }

  /** `handle_connection`: one response per request, in order, until the lines end or a
      read fails; it ends in an error exactly in the latter case. */
  method HandleConnection(daemon: Daemon, caller: Caller, lines: seq<Line>, decode: Str -> Option<Str>)
    returns (responses: seq<ResolveResponse>, ok: bool)
    ensures Answered(daemon, caller, Asked(lines, decode), responses)
    ensures ok <==> Unreadable !in lines
  {
    hide Asked, Respond, Answered;
    var relayed := daemon.relays.Contains(caller);
    responses := [];
    ghost var done: seq<Str> := [];
    NothingAsked(daemon, caller, lines, decode);
    for k := 0 to |lines|
      invariant Asked(lines, decode) == done + Asked(lines[k..], decode)
      invariant Answered(daemon, caller, done, responses)
      invariant forall j :: 0 <= j < k ==> lines[j].Text?
    {
      AskedAt(lines, k, decode);
      if lines[k].Unreadable? {
        assert done + [] == done;
        return responses, false;
      }
      var request := decode(lines[k].text);
      if request.None? {
        continue;
      }
      var resp := AnswerRequest(daemon, caller, relayed, request.value);
      AnsweredSnoc(daemon, caller, done, responses, request.value);
      Associate(done, [request.value], Asked(lines[k + 1..], decode));
      done := done + [request.value];
      responses := responses + [resp];
    }
    AskedAt(lines, |lines|, decode);
    assert done + [] == done;
    ok := true;
  }

  lemma NothingAsked(daemon: Daemon, caller: Caller, lines: seq<Line>, decode: Str -> Option<Str>)
    ensures Answered(daemon, caller, [], []) && Asked(lines, decode) == [] + Asked(lines[0..], decode)
  {
    assert lines[0..] == lines;
  }

  // ---- The module (src/lib.rs) --------------------------------------------------------

  datatype AddressFamily = IPv4 | IPv6 | Unspecified

  /** `filter_addrs`: the addresses of one family; unspecified prefers IPv4. */
  function FilterAddrs(addrs: seq<Ip>, family: AddressFamily): (r: Option<seq<Ip>>)
    ensures r.Some? ==> r.value != [] && (exists v6 :: r.value == OfFamily(addrs, v6))
  {
    var (v4, v6) := (OfFamily(addrs, false), OfFamily(addrs, true));
    match family
    case IPv4 => if v4 == [] then None else Some(v4)
    case IPv6 => if v6 == [] then None else Some(v6)
    case Unspecified => if v4 != [] then Some(v4) else if v6 != [] then Some(v6) else None
  }

  /** Exactly when the filter comes up empty, and that nothing wanted is lost. */
  lemma FilterAddrsIff(addrs: seq<Ip>, family: AddressFamily, a: Ip)
    ensures FilterAddrs(addrs, family).None? <==>
      forall b <- addrs :: (family == IPv4 && b.V6?) || (family == IPv6 && b.V4?)
    ensures a in addrs && ((family == IPv4 && a.V4?) || (family == IPv6 && a.V6?) || (family == Unspecified && a.V4?))
      ==> FilterAddrs(addrs, family).Some? && a in FilterAddrs(addrs, family).value
  {
    forall b, v6 ensures b in OfFamily(addrs, v6) <==> b in addrs && b.V6? == v6 {
      OfFamilyMember(addrs, v6, b);
    }
    var (v4, v6) := (OfFamily(addrs, false), OfFamily(addrs, true));
    if v4 != [] { assert v4[0] in v4; }
    if v6 != [] { assert v6[0] in v6; }
  }

  datatype NssStatus = Success(addrs: seq<Ip>) | NotFound | Unavail

  /** `get_host_by_name`, given the daemon's answer, if it could be reached. */
  function GetHostByName(answer: Option<ResolveResponse>, family: AddressFamily): NssStatus {
    match answer
    case None => Unavail
    case Some(ResponseDenied(_)) => NotFound
    case Some(ResponsePassThrough) => Unavail
    case Some(Resolved(addrs)) =>
      match FilterAddrs(addrs, family)
      case Some(wanted) => Success(wanted)
      case None => NotFound
  }

  /** `[!UNAVAIL=return]`: the chain goes on to the next source only on Unavail, which
      a reachable daemon answers exactly when it relays or hands the name on. */
  lemma ChainContinuesIff(daemon: Daemon, caller: Caller, hostname: Str, family: AddressFamily)
    ensures GetHostByName(Some(Respond(daemon, caller, hostname)), family) == Unavail
       <==> daemon.relays.Contains(caller) || Decide(daemon.engine, daemon.local, hostname, caller) == HandOn
  {
  }
}
