/** Stacked front-ends: one lookup on its way
      glibc -> [nscd front-end] -> nscd -> [NSS module] -> dns -> [DNS front-end]
    as steps of a state machine, with every policy judgement recorded. */
module Stack {
  import opened Bytes
  import opened Net
  import opened Policy
  import opened Relay
  import Nss = NssModule
  import DnsFrontend
  import DnsMessage
  import NscdFrontend
  import NscdProtocol
  import Identify
  import Agreement

  /** A source of the `hosts` line in nsswitch.conf: the NSS module, `dns`, or any other
      (`files`, say), which may or may not have an answer. */
  datatype Source = Plain(name: nat) | Deezns | Dns

  datatype FrontEnd = NscdFront | NssFront | DnsFront

  datatype Judgement = Judgement(judge: FrontEnd, caller: Caller, decision: Decision)

  datatype Finish = ByPlainSource | ByFrontEnd | ByUpstream | Exhausted | NscdFailed

  datatype Place =
    | AtGlibc
    | AtNscdFront
    | AtNscd
    | InChain(inNscd: bool, rest: seq<Source>)
    | AtDnsServer(inNscd: bool)
    | AtUpstream
    | Done(how: Finish)

  datatype State = State(place: Place, judged: seq<Judgement>, sawUpstream: bool)

  /** A lookup and the system it runs on. */
  datatype World = World(
    cfg: PolicyConfig, uidOf: Str -> Option<U32>, relays: ListenerRelays,
    engine: Engine, local: Str -> seq<Ip>,
    hostname: Str, dnsName: Str, family: Nss.AddressFamily,
    user: Caller, userOnDns: Caller,       // the program, as SO_PEERCRED and as its DNS socket show it
    nscd: Caller, nscdOnDns: Caller,       // nscd, likewise
    nscdServesHosts: bool, nscdAnswers: bool, daemonUp: bool,
    sources: seq<Source>)

  // ---- Steps ---------------------------------------------------------------------

  ghost function Record(s: State, judge: FrontEnd, caller: Caller, d: Decision, onward: Place): State {
    State(if d == HandOn then onward else Done(ByFrontEnd), s.judged + [Judgement(judge, caller, d)], s.sawUpstream)
  }

  function Move(s: State, place: Place): State { s.(place := place) }

  /** One step; `answers` says whether a plain source, if asked now, has an answer. */
  ghost function Step(w: World, s: State, answers: bool): State {
    match s.place
    case AtGlibc =>
      Move(s, if w.cfg.Nscd() then AtNscdFront
              else if w.nscdServesHosts then AtNscd
              else InChain(false, w.sources))
    case AtNscdFront =>
      Record(s, NscdFront, w.user, Decide(w.engine, w.local, w.hostname, w.user), AtNscd)
    case AtNscd =>
      // A reply that is missing or "not served" becomes TRY_AGAIN behind the front-end;
      // without it glibc falls back to resolving in the program itself.
      Move(s, if w.nscdServesHosts && w.nscdAnswers then InChain(true, w.sources)
              else if w.cfg.Nscd() then Done(NscdFailed)
              else InChain(false, w.sources))
    case InChain(inNscd, rest) =>
      if rest == [] then Move(s, Done(Exhausted))
      else (match rest[0]
            case Plain(_) => Move(s, if answers then Done(ByPlainSource) else InChain(inNscd, rest[1..]))
            case Deezns => AskModule(w, s, inNscd, rest[1..])
            case Dns => Move(s, AtDnsServer(inNscd)))
    case AtDnsServer(inNscd) =>
      var caller := if inNscd then w.nscdOnDns else w.userOnDns;
      if !w.cfg.Dns() || w.relays.dns.Contains(caller) then Move(s, AtUpstream)
      else Record(s, DnsFront, caller, DnsFrontend.Judge(DnsSide(w), w.dnsName, caller), AtUpstream)
    case AtUpstream => State(Done(ByUpstream), s.judged, true)
    case Done(_) => s
  }

  ghost function DnsSide(w: World): DnsFrontend.Frontend {
    DnsFrontend.Frontend(w.engine, w.relays.dns, false, w.local)
  }

  function DaemonSide(w: World): Nss.Daemon {
    Nss.Daemon(w.engine, w.relays.policySocket, w.local)
  }

  /** The NSS module asks the policy socket; only Unavail lets the chain go on. */
  ghost function AskModule(w: World, s: State, inNscd: bool, rest: seq<Source>): State {
    var caller := if inNscd then w.nscd else w.user;
    var answer := if w.daemonUp then Some(Nss.Respond(DaemonSide(w), caller, w.hostname)) else None;
    var onward := if Nss.GetHostByName(answer, w.family) == Nss.Unavail then InChain(inNscd, rest) else Done(ByFrontEnd);
    var judged :=
      if w.daemonUp && !w.relays.policySocket.Contains(caller)
      then s.judged + [Judgement(NssFront, caller, Decide(w.engine, w.local, w.hostname, caller))]
      else s.judged;
    State(onward, judged, s.sawUpstream)
  }

  const START := State(AtGlibc, [], false)

  ghost function Run(w: World, s: State, choices: seq<bool>): State
    decreases |choices|
  {
    if choices == [] then s else Run(w, Step(w, s, choices[0]), choices[1..])
  }

  // ---- The deployment the documentation asks for -------------------------------------

  /** The module is in the chain exactly when it is enabled, once, and before `dns`. */
  ghost predicate ChainFits(rest: seq<Source>, moduleAhead: bool) {
    if rest == [] then !moduleAhead
    else match rest[0]
      case Plain(_) => ChainFits(rest[1..], moduleAhead)
      case Deezns => moduleAhead && ChainFits(rest[1..], false)
      case Dns => !moduleAhead
  }

  predicate AsksDns(rest: seq<Source>) {
    rest != [] && (rest[0] == Dns || AsksDns(rest[1..]))
  }

  /** At least one front-end is on; nscd resolves hosts exactly when the nscd or NSS
      front-end is on, and does answer when it stands alone in front of the module; the
      daemon is reachable; the relays are those of the configuration. */
  ghost predicate Deployed(w: World) {
    && ForConfig(w.cfg, w.uidOf) == Ok(w.relays)
    && (w.cfg.Nscd() || w.cfg.Nss() || w.cfg.Dns())
    && (w.nscdServesHosts <==> w.cfg.Nscd() || w.cfg.Nss())
    && (w.cfg.Nss() && !w.cfg.Nscd() ==> w.nscdAnswers)
    && w.daemonUp
    && ChainFits(w.sources, w.cfg.Nss())
  }

  /** Moreover the name asked over DNS is the name of the lookup, up to spelling. */
  ghost predicate Wired(w: World) {
    Deployed(w) && Canonical(w.dnsName) == Canonical(w.hostname)
  }

  predicate IsNscd(w: World, caller: Caller) {
    w.cfg.nscdUser.Some? && caller.uid.Some? && w.uidOf(w.cfg.nscdUser.value) == caller.uid
  }

  /** Where front-ends are stacked, nscd's sockets are identified as the configured user's. */
  ghost predicate Identified(w: World) {
    && (w.cfg.Nscd() && w.cfg.Nss() ==> IsNscd(w, w.nscd))
    && ((w.cfg.Nscd() || w.cfg.Nss()) && w.cfg.Dns() ==> IsNscd(w, w.nscdOnDns))
  }

  /** The first enabled front-end on the way. */
  function FirstFrontEnd(cfg: PolicyConfig): FrontEnd {
    if cfg.Nscd() then NscdFront else if cfg.Nss() then NssFront else DnsFront
  }

  // ---- What every run keeps ------------------------------------------------------------

  /** Whom a front-end sees when it is the first: the program, except that the NSS module
      runs in nscd. */
  function CallerAt(w: World, judge: FrontEnd): Caller {
    match judge
    case NscdFront => w.user
    case NssFront => w.nscd
    case DnsFront => w.userOnDns
  }

  /** Judged once, by the first enabled front-end, for the caller it sees. */
  predicate JudgedAtFirst(w: World, judged: seq<Judgement>) {
    var first := FirstFrontEnd(w.cfg);
    |judged| == 1 && judged[0].judge == first && judged[0].caller == CallerAt(w, first)
  }

  predicate Passed(w: World, judged: seq<Judgement>) {
    JudgedAtFirst(w, judged) && judged[0].decision == HandOn
  }

  /** In the chain, with the module still ahead or not. */
  ghost predicate ChainInv(w: World, judged: seq<Judgement>, rest: seq<Source>, ahead: bool) {
    && ChainFits(rest, ahead) && (ahead ==> w.cfg.Nss()) && (AsksDns(rest) <==> AsksDns(w.sources))
    && if w.cfg.Nscd() || (w.cfg.Nss() && !ahead) then Passed(w, judged) else judged == []
  }

  ghost predicate Inv(w: World, s: State) {
    var first := FirstFrontEnd(w.cfg);
    && (s.sawUpstream ==> s.place == Done(ByUpstream))
    && match s.place
       case AtGlibc => s.judged == []
       case AtNscdFront => w.cfg.Nscd() && s.judged == []
       case AtNscd => w.nscdServesHosts && if w.cfg.Nscd() then Passed(w, s.judged) else s.judged == []
       case InChain(inNscd, rest) =>
         inNscd == w.nscdServesHosts && exists ahead :: ChainInv(w, s.judged, rest, ahead)
       case AtDnsServer(inNscd) =>
         && inNscd == w.nscdServesHosts
         && if first == DnsFront then s.judged == [] else Passed(w, s.judged)
       case AtUpstream => Passed(w, s.judged)
       case Done(how) =>
         if s.judged == [] then
           && first != NscdFront
           && (how == ByPlainSource || (how == Exhausted && first == DnsFront && !AsksDns(w.sources)))
         else JudgedAtFirst(w, s.judged) && (how == ByUpstream ==> Passed(w, s.judged))
  }

  lemma WhoRelays(w: World)
    requires Wired(w) && Identified(w)
    ensures w.cfg.Nss() ==> (w.relays.policySocket.Contains(w.nscd) <==> w.cfg.Nscd())
    ensures w.cfg.Dns() && w.nscdServesHosts ==> w.relays.dns.Contains(w.nscdOnDns)
    ensures !w.nscdServesHosts ==> !w.relays.dns.Contains(w.userOnDns)
  {
    hide Canonical, ChainFits;
  }

  lemma ModuleStep(w: World, s: State, inNscd: bool, rest: seq<Source>)
    ensures var caller := if inNscd then w.nscd else w.user;
      var t := AskModule(w, s, inNscd, rest);
      && t.sawUpstream == s.sawUpstream
      && if !w.daemonUp || w.relays.policySocket.Contains(caller) then
           t.judged == s.judged && t.place == InChain(inNscd, rest)
         else
           && t.judged == s.judged + [Judgement(NssFront, caller, Decide(w.engine, w.local, w.hostname, caller))]
           && t.place == if Decide(w.engine, w.local, w.hostname, caller) == HandOn then InChain(inNscd, rest)
                         else Done(ByFrontEnd)
  {
  }

  lemma ChainStepKeepsInv(w: World, s: State, inNscd: bool, rest: seq<Source>, ahead: bool, answers: bool)
    requires Wired(w) && Identified(w) && s.place == InChain(inNscd, rest) && !s.sawUpstream
    requires inNscd == w.nscdServesHosts && ChainInv(w, s.judged, rest, ahead)
    ensures Inv(w, Step(w, s, answers))
  {
    hide Decide, Canonical, AskModule;
    WhoRelays(w);
    var t := Step(w, s, answers);
    if rest != [] {
      match rest[0] {
        case Plain(_) => assert !answers ==> ChainInv(w, t.judged, rest[1..], ahead);
        case Deezns =>
          ModuleStep(w, s, inNscd, rest[1..]);
          assert t.place.InChain? ==> ChainInv(w, t.judged, rest[1..], false);
        case Dns =>
      }
    }
  }

  lemma StepKeepsInv(w: World, s: State, answers: bool)
    requires Wired(w) && Identified(w) && Inv(w, s)
    ensures Inv(w, Step(w, s, answers))
  {
    hide Decide, Canonical, AskModule;
    WhoRelays(w);
    var t := Step(w, s, answers);
    match s.place {
      case InChain(inNscd, rest) =>
        var ahead :| ChainInv(w, s.judged, rest, ahead);
        ChainStepKeepsInv(w, s, inNscd, rest, ahead, answers);
      case _ =>
        assert t.place.InChain? ==> ChainInv(w, t.judged, w.sources, w.cfg.Nss());
    }
  }

  lemma {:induction false} RunKeepsInv(w: World, s: State, choices: seq<bool>)
    requires Wired(w) && Identified(w) && Inv(w, s)
    ensures Inv(w, Run(w, s, choices))
    decreases |choices|
  {
    hide Step, Inv, Wired, Identified;
    if choices != [] {
      StepKeepsInv(w, s, choices[0]);
      RunKeepsInv(w, Step(w, s, choices[0]), choices[1..]);
    }
  }

  /** Every judgement recorded is the policy's verdict on this name for that caller. */
  ghost predicate Faithful(w: World, judged: seq<Judgement>) {
    forall j <- judged :: j.decision.Refuse? <==> Evaluate(w.engine, w.hostname, j.caller).Denied?
  }

  lemma {:induction false} RunKeepsFaithful(w: World, s: State, choices: seq<bool>)
    requires Wired(w) && Faithful(w, s.judged)
    ensures Faithful(w, Run(w, s, choices).judged)
    decreases |choices|
  {
    hide Step, Wired, Faithful;
    if choices != [] {
      StepKeepsFaithful(w, s, choices[0]);
      RunKeepsFaithful(w, Step(w, s, choices[0]), choices[1..]);
    }
  }

  lemma StepKeepsFaithful(w: World, s: State, answers: bool)
    requires Wired(w) && Faithful(w, s.judged)
    ensures Faithful(w, Step(w, s, answers).judged)
  {
    hide Evaluate, Canonical, Nss.GetHostByName, Nss.Respond, ChainFits, ForConfig;
    EvaluateRespectsCanonical(w.engine, w.hostname, w.dnsName, w.nscdOnDns);
    EvaluateRespectsCanonical(w.engine, w.hostname, w.dnsName, w.userOnDns);
  }

  /** Every judgement but the last handed the lookup on, and the last did not exactly when
      the lookup has ended at a front-end. */
  ghost predicate Settled(s: State) {
    var n := |s.judged|;
    && (forall i :: 0 <= i < n - 1 ==> s.judged[i].decision == HandOn)
    && (s.place == Done(ByFrontEnd) <==> n > 0 && s.judged[n - 1].decision != HandOn)
  }

  /** Nothing is judged in the step, or one thing is and the step ends the lookup at a
      front-end exactly unless it is handed on. */
  ghost predicate JudgesAtMostOnce(s: State, t: State) {
    || (t.judged == s.judged && (t.place == Done(ByFrontEnd) <==> s.place == Done(ByFrontEnd)))
    || (&& !s.place.Done? && |t.judged| == |s.judged| + 1 && t.judged[..|s.judged|] == s.judged
        && (t.place == Done(ByFrontEnd) <==> t.judged[|s.judged|].decision != HandOn))
  }

  lemma ModuleJudgesAtMostOnce(w: World, s: State, inNscd: bool, rest: seq<Source>)
    requires s.place.InChain?
    ensures JudgesAtMostOnce(s, AskModule(w, s, inNscd, rest))
  {
    hide Decide, AskModule;
    ModuleStep(w, s, inNscd, rest);
  }

  lemma StepJudgesAtMostOnce(w: World, s: State, answers: bool)
    ensures JudgesAtMostOnce(s, Step(w, s, answers))
  {
    hide Decide, DnsFrontend.Judge, AskModule;
    if s.place.InChain? && s.place.rest != [] {
      ModuleJudgesAtMostOnce(w, s, s.place.inNscd, s.place.rest[1..]);
    }
  }

  lemma StepSettles(w: World, s: State, answers: bool)
    requires Settled(s)
    ensures Settled(Step(w, s, answers))
  {
    hide Step;
    StepJudgesAtMostOnce(w, s, answers);
    var t := Step(w, s, answers);
    if t.judged != s.judged {
      assert forall i :: 0 <= i < |s.judged| ==> t.judged[i] == t.judged[..|s.judged|][i] == s.judged[i];
    }
  }

  /** In every system, however wired: a front-end ends a lookup exactly when it judges it
      and does not hand it on. */
  lemma {:induction false} RunSettles(w: World, s: State, choices: seq<bool>)
    requires Settled(s)
    ensures Settled(Run(w, s, choices))
    decreases |choices|
  {
    hide Step, Settled;
    if choices != [] {
      StepSettles(w, s, choices[0]);
      RunSettles(w, Step(w, s, choices[0]), choices[1..]);
    }
  }

  /** At every moment a lookup has been judged at most once, and then at the first enabled
      front-end, on the policy's verdict; the real resolver is reached only by a lookup
      that was judged there and handed on; and a lookup that ends unjudged was answered by
      a plain source first, or is never taken to any front-end: the DNS front-end is the
      only one and the hosts line does not name `dns`. */
  lemma JudgedAtMostOnce(w: World, choices: seq<bool>)
    requires Wired(w) && Identified(w)
    ensures var s := Run(w, START, choices);
      && |s.judged| <= 1
      && (s.judged != [] ==>
            && JudgedAtFirst(w, s.judged)
            && (s.judged[0].decision.Refuse? <==> Evaluate(w.engine, w.hostname, s.judged[0].caller).Denied?))
      && (s.sawUpstream || s.place == AtUpstream ==> Passed(w, s.judged))
      && (s.place.Done? && s.judged == [] ==>
            && !w.cfg.Nscd()
            && (s.place.how == ByPlainSource
                || (s.place.how == Exhausted && FirstFrontEnd(w.cfg) == DnsFront && !AsksDns(w.sources))))
  {
    hide Run, Wired, Identified, Evaluate;
    assert Inv(w, START) && Faithful(w, START.judged);
    RunKeepsInv(w, START, choices);
    RunKeepsFaithful(w, START, choices);
  }

  // ---- Every lookup ends -----------------------------------------------------------------

  function Distance(w: World, p: Place): nat {
    match p
    case AtGlibc => |w.sources| + 7
    case AtNscdFront => |w.sources| + 6
    case AtNscd => |w.sources| + 5
    case InChain(_, rest) => |rest| + 4
    case AtDnsServer(_) => 2
    case AtUpstream => 1
    case Done(_) => 0
  }

  lemma StepComesCloser(w: World, s: State, answers: bool)
    requires !s.place.Done?
    ensures Distance(w, Step(w, s, answers).place) < Distance(w, s.place)
  {
    hide Decide, DnsFrontend.Judge, AskModule;
    if s.place.InChain? { ChainStepComesCloser(w, s, answers); }
  }

  lemma ChainStepComesCloser(w: World, s: State, answers: bool)
    requires s.place.InChain?
    ensures Distance(w, Step(w, s, answers).place) < Distance(w, s.place)
  {
    hide Decide, DnsFrontend.Judge, AskModule;
    if s.place.rest != [] {
      ModuleGoesOnOrEnds(w, s, s.place.inNscd, s.place.rest[1..]);
    }
  }

  lemma ModuleGoesOnOrEnds(w: World, s: State, inNscd: bool, rest: seq<Source>)
    ensures AskModule(w, s, inNscd, rest).place in {InChain(inNscd, rest), Done(ByFrontEnd)}
  {
  }

  lemma {:induction false} EveryLookupEnds(w: World, s: State, choices: seq<bool>)
    requires |choices| >= Distance(w, s.place)
    ensures Run(w, s, choices).place.Done?
    decreases |choices|
  {
    hide Step, Distance;
    if choices == [] {
      AtDistanceZero(w, s.place);
    } else if s.place.Done? {
      DoneStays(w, s, choices);
    } else {
      StepComesCloser(w, s, choices[0]);
      EveryLookupEnds(w, Step(w, s, choices[0]), choices[1..]);
    }
  }

  lemma AtDistanceZero(w: World, p: Place)
    ensures Distance(w, p) == 0 ==> p.Done?
  {
  }

  lemma {:induction false} DoneStays(w: World, s: State, choices: seq<bool>)
    requires s.place.Done?
    ensures Run(w, s, choices) == s
    decreases |choices|
  {
    if choices != [] { DoneStays(w, s, choices[1..]); }
  }

  /** The lookup has ended, judged exactly once: by the first enabled front-end, for the
      caller it sees and on the policy's verdict. The one exception is a lookup that a plain
      source answered before it met a front-end, and behind the nscd front-end there is
      none. It ended at a front-end exactly when it was judged and not handed on, so that
      what passed the first one was not refused further along, and it reached the real
      resolver only if it passed. */
  ghost predicate EndedJudgedOnce(w: World, s: State) {
    && s.place.Done?
    && (JudgedAtFirst(w, s.judged) || (s.judged == [] && s.place.how == ByPlainSource && !w.cfg.Nscd()))
    && (s.judged != [] ==>
          (s.judged[0].decision.Refuse? <==> Evaluate(w.engine, w.hostname, s.judged[0].caller).Denied?))
    && (s.place == Done(ByFrontEnd) <==> s.judged != [] && s.judged[0].decision != HandOn)
    && (s.sawUpstream ==> Passed(w, s.judged))
  }

  /** Every lookup ends, judged exactly once. */
  lemma JudgedOnceAtTheFirst(w: World, choices: seq<bool>)
    requires Wired(w) && Identified(w) && (w.cfg.Nscd() || w.cfg.Nss() || AsksDns(w.sources))
    requires |choices| >= |w.sources| + 7
    ensures EndedJudgedOnce(w, Run(w, START, choices))
  {
    hide Run, Wired, Identified, Evaluate;
    EveryLookupEnds(w, START, choices);
    JudgedAtMostOnce(w, choices);
    assert Settled(START);
    RunSettles(w, START, choices);
  }

  // ---- Why the relays are needed -----------------------------------------------------------

  function Count(b: bool): nat { if b then 1 else 0 }

  /** The policy hands this name on whoever asks. */
  ghost predicate AlwaysHandedOn(w: World) {
    forall caller: Caller ::
      Decide(w.engine, w.local, w.hostname, caller) == HandOn && Decide(w.engine, w.local, w.dnsName, caller) == HandOn
  }

  /** So many steps in which no plain source has an answer. */
  function Quiet(n: nat): (r: seq<bool>)
    ensures |r| == n
  {
    if n == 0 then [] else [false] + Quiet(n - 1)
  }

  lemma RunStep(w: World, s: State, n: nat)
    requires n > 0
    ensures Run(w, s, Quiet(n)) == Run(w, Step(w, s, false), Quiet(n - 1))
  {
  }

  /** How often the module is asked before `dns` is. */
  function ModulesAhead(rest: seq<Source>): nat {
    if rest == [] || rest[0] == Dns then 0 else Count(rest[0] == Deezns) + ModulesAhead(rest[1..])
  }

  lemma {:induction false} FittingChainHasOneModule(rest: seq<Source>, ahead: bool)
    requires ChainFits(rest, ahead)
    ensures ModulesAhead(rest) == Count(ahead)
  {
    if rest != [] && !rest[0].Dns? {
      FittingChainHasOneModule(rest[1..], ahead && !rest[0].Deezns?);
    }
  }

  predicate ModuleJudges(w: World, inNscd: bool) {
    w.daemonUp && !w.relays.policySocket.Contains(if inNscd then w.nscd else w.user)
  }

  predicate DnsJudges(w: World, inNscd: bool) {
    w.cfg.Dns() && !w.relays.dns.Contains(if inNscd then w.nscdOnDns else w.userOnDns)
  }

  /** How many judgements are still to come from inside the chain. */
  function ChainJudgements(w: World, inNscd: bool, rest: seq<Source>): nat {
    (if ModuleJudges(w, inNscd) then ModulesAhead(rest) else 0) + Count(AsksDns(rest) && DnsJudges(w, inNscd))
  }

  lemma HandedOn(w: World, caller: Caller)
    requires AlwaysHandedOn(w)
    ensures Decide(w.engine, w.local, w.hostname, caller) == HandOn
    ensures DnsFrontend.Judge(DnsSide(w), w.dnsName, caller) == HandOn
  {
  }

  lemma DnsServerRun(w: World, s: State, inNscd: bool, n: nat)
    requires AlwaysHandedOn(w) && s.place == AtDnsServer(inNscd) && n >= 2
    ensures |Run(w, s, Quiet(n)).judged|
         == |s.judged| + Count(DnsJudges(w, inNscd))
  {
    hide Decide, Run, AskModule, Quiet, AlwaysHandedOn;
    RunStep(w, s, n);
    var t := Step(w, s, false);
    assert t.place == AtUpstream by { HandedOn(w, if inNscd then w.nscdOnDns else w.userOnDns); }
    RunStep(w, t, n - 1);
    DoneStays(w, Step(w, t, false), Quiet(n - 2));
  }

  lemma PassingChainStep(w: World, s: State, inNscd: bool, rest: seq<Source>)
    requires AlwaysHandedOn(w) && s.place == InChain(inNscd, rest)
    ensures var t := Step(w, s, false);
      && t.place == (if rest == [] then Done(Exhausted)
                     else if rest[0] == Dns then AtDnsServer(inNscd)
                     else InChain(inNscd, rest[1..]))
      && |t.judged| == |s.judged| + Count(rest != [] && rest[0] == Deezns && ModuleJudges(w, inNscd))
  {
    hide Decide, AskModule, AlwaysHandedOn, DnsFrontend.Judge, Record;
    if rest != [] {
      HandedOn(w, if inNscd then w.nscd else w.user);
      ModuleStep(w, s, inNscd, rest[1..]);
    }
  }

  lemma {:induction false} ChainRun(w: World, s: State, inNscd: bool, rest: seq<Source>, n: nat)
    requires AlwaysHandedOn(w) && s.place == InChain(inNscd, rest) && n >= |rest| + 2
    ensures |Run(w, s, Quiet(n)).judged| == |s.judged| + ChainJudgements(w, inNscd, rest)
    decreases |rest|
  {
    hide Step, Run, Quiet, DnsJudges, AlwaysHandedOn;
    RunStep(w, s, n);
    PassingChainStep(w, s, inNscd, rest);
    var t := Step(w, s, false);
    if rest == [] {
      DoneStays(w, t, Quiet(n - 1));
    } else {
      match rest[0] {
        case Plain(_) => ChainRun(w, t, inNscd, rest[1..], n - 1);
        case Deezns => ChainRun(w, t, inNscd, rest[1..], n - 1);
        case Dns => DnsServerRun(w, t, inNscd, n - 1);
      }
    }
  }

  /** Whether nscd itself resolves the lookup, rather than the program that asks. */
  predicate NscdResolves(w: World) { w.nscdServesHosts && w.nscdAnswers }

  lemma NscdRun(w: World, s: State, n: nat)
    requires AlwaysHandedOn(w) && s.place == AtNscd && n >= |w.sources| + 3
    ensures |Run(w, s, Quiet(n)).judged|
         == |s.judged| + if w.cfg.Nscd() && !NscdResolves(w) then 0 else ChainJudgements(w, NscdResolves(w), w.sources)
  {
    hide Decide, Run, AskModule, Quiet, ChainJudgements, AlwaysHandedOn;
    RunStep(w, s, n);
    var t := Step(w, s, false);
    if t.place.Done? { DoneStays(w, t, Quiet(n - 1)); } else { ChainRun(w, t, NscdResolves(w), w.sources, n - 1); }
  }

  lemma FirstSteps(w: World)
    requires AlwaysHandedOn(w)
    ensures var s := Step(w, START, false);
      var t := Step(w, s, false);
      && s.judged == []
      && s.place == (if w.cfg.Nscd() then AtNscdFront
                     else if w.nscdServesHosts then AtNscd
                     else InChain(false, w.sources))
      && (w.cfg.Nscd() ==> t.place == AtNscd && |t.judged| == 1)
  {
    hide Decide, AskModule, AlwaysHandedOn;
    HandedOn(w, w.user);
  }

  /** How often a lookup that is always handed on is judged, in every system: whatever the
      relays, the hosts line, the identification and the state of nscd and the daemon. */
  lemma JudgementsOfAPassingLookup(w: World, n: nat)
    requires AlwaysHandedOn(w) && n >= |w.sources| + 5
    ensures |Run(w, START, Quiet(n)).judged|
         == Count(w.cfg.Nscd())
            + if w.cfg.Nscd() && !NscdResolves(w) then 0 else ChainJudgements(w, NscdResolves(w), w.sources)
  {
    hide Step, Run, Quiet, ChainJudgements, AlwaysHandedOn;
    RunStep(w, START, n);
    FirstSteps(w);
    var s := Step(w, START, false);
    if w.cfg.Nscd() {
      RunStep(w, s, n - 1);
      NscdRun(w, Step(w, s, false), n - 2);
    } else if w.nscdServesHosts {
      NscdRun(w, s, n - 1);
    } else {
      ChainRun(w, s, false, w.sources, n - 1);
    }
  }

  /** The identification of nscd is needed, not just enough: a lookup that is handed on
      all the way is judged exactly once if and only if nscd is identified wherever it
      passes a listener behind another front-end. */
  lemma JudgedOnceIff(w: World, n: nat)
    requires Wired(w) && w.nscdAnswers && AlwaysHandedOn(w) && AsksDns(w.sources) && n >= |w.sources| + 5
    ensures |Run(w, START, Quiet(n)).judged| == 1 <==> Identified(w)
  {
    hide Decide, Run, AlwaysHandedOn, Canonical, Quiet;
    JudgementsOfAPassingLookup(w, n);
    FittingChainHasOneModule(w.sources, w.cfg.Nss());
    RelaysIff(w.cfg, w.uidOf, w.nscd);
    RelaysIff(w.cfg, w.uidOf, w.nscdOnDns);
    RelaysIff(w.cfg, w.uidOf, w.userOnDns);
  }

  /** The identification comes from the socket table. With nscd's own connection to the
      DNS front-end in it, a lookup that passes all the way is judged exactly once if and
      only if no other user's row shows that same connection. */
  lemma JudgedOnceIffConnectionIsNscds(w: World, n: nat, entries: seq<Identify.SocketEntry>, row: Identify.SocketEntry,
                                       processOf: nat -> Option<Identify.Process>, peer: SocketAddr, server: SocketAddr,
                                       processes: bool)
    requires Wired(w) && w.nscdAnswers && AlwaysHandedOn(w) && AsksDns(w.sources) && n >= |w.sources| + 5
    requires (w.cfg.Nscd() || w.cfg.Nss()) && w.cfg.Dns() && (w.cfg.Nscd() && w.cfg.Nss() ==> IsNscd(w, w.nscd))
    requires w.nscdOnDns == Identify.IdentifyCaller(entries, processOf, peer, server, processes)
    requires row in entries && Identify.IsConnection(row, peer, server) && !server.ip.Unspecified()
    requires w.cfg.nscdUser.Some? && w.uidOf(w.cfg.nscdUser.value) == Some(row.uid)
    ensures Identified(w) <==> forall f <- entries :: Identify.IsConnection(f, peer, server) ==> f.uid == row.uid
    ensures |Run(w, START, Quiet(n)).judged| == 1
       <==> forall f <- entries :: Identify.IsConnection(f, peer, server) ==> f.uid == row.uid
  {
    hide Run, Wired, AlwaysHandedOn, Quiet, Identify.IdentifyCaller, Identify.IsConnection;
    Identify.ConnectionIdentifiesOwner(entries, row, processOf, peer, server, processes);
    JudgedOnceIff(w, n);
  }

  /** The same from what is on the wire and in the tables. The query that asks for the
      name gives the DNS front-end the name of the lookup, in whatever case and with
      whatever trailing dots the program spelled it, and nscd's own connection, shown by no
      other user's row, identifies nscd: so in a system deployed as documented every lookup
      ends judged exactly once. */
  lemma JudgedOnceOnTheWire(w: World, choices: seq<bool>, raw: seq<Byte>, labels: seq<seq<Byte>>, dots: nat,
                            entries: seq<Identify.SocketEntry>, row: Identify.SocketEntry,
                            processOf: nat -> Option<Identify.Process>, peer: SocketAddr, server: SocketAddr,
                            processes: bool)
    requires Deployed(w) && (w.cfg.Nscd() || w.cfg.Nss()) && |choices| >= |w.sources| + 7
    requires DnsMessage.Asks(raw, labels) && Agreement.Text(labels) && w.hostname == Join(labels) + Dots(dots)
    requires DnsMessage.Parse(raw).Ok? && w.dnsName == DnsFrontend.Hostname(DnsMessage.Parse(raw).value)
    requires w.cfg.Nscd() && w.cfg.Nss() ==> IsNscd(w, w.nscd)
    requires w.nscdOnDns == Identify.IdentifyCaller(entries, processOf, peer, server, processes)
    requires row in entries && Identify.IsConnection(row, peer, server) && !server.ip.Unspecified()
    requires forall f <- entries :: Identify.IsConnection(f, peer, server) ==> f.uid == row.uid
    requires w.cfg.nscdUser.Some? && w.uidOf(w.cfg.nscdUser.value) == Some(row.uid)
    ensures EndedJudgedOnce(w, Run(w, START, choices))
  {
    hide Run, Deployed, EndedJudgedOnce, Canonical, Identify.IdentifyCaller, Identify.IsConnection,
      DnsMessage.Asks, DnsMessage.Parse, Agreement.Text, Join, Dots;
    Agreement.WireNameIsTheName(raw, labels, dots);
    Identify.ConnectionIdentifiesOwner(entries, row, processOf, peer, server, processes);
    JudgedOnceAtTheFirst(w, choices);
  }

  /** The program's or nscd's socket, whichever asks the DNS server. */
  function AsksDnsAs(w: World): Caller {
    if NscdResolves(w) then w.nscdOnDns else w.userOnDns
  }

  /** The NSS module and the DNS front-end without the nscd front-end, however nscd is
      set up: a lookup handed on all the way is judged once exactly when the socket that asks
      the DNS server is identified as nscd's, and twice otherwise. */
  lemma ModuleAndDnsJudgeOnceIff(w: World, n: nat)
    requires ForConfig(w.cfg, w.uidOf) == Ok(w.relays) && w.daemonUp
    requires !w.cfg.Nscd() && w.cfg.Nss() && w.cfg.Dns() && ChainFits(w.sources, true) && AsksDns(w.sources)
    requires AlwaysHandedOn(w) && n >= |w.sources| + 5
    ensures |Run(w, START, Quiet(n)).judged| == if IsNscd(w, AsksDnsAs(w)) then 1 else 2
  {
    hide Decide, Run, AlwaysHandedOn, Quiet;
    JudgementsOfAPassingLookup(w, n);
    FittingChainHasOneModule(w.sources, w.cfg.Nss());
    RelaysIff(w.cfg, w.uidOf, if NscdResolves(w) then w.nscd else w.user);
    RelaysIff(w.cfg, w.uidOf, AsksDnsAs(w));
  }

  /** So a lookup that nscd leaves to the program itself (or fails, so that glibc falls
      back) is judged twice, unless the program runs as nscd's user. */
  lemma ModuleInTheProgramIsJudgedTwice(w: World, n: nat)
    requires ForConfig(w.cfg, w.uidOf) == Ok(w.relays) && w.daemonUp
    requires !w.cfg.Nscd() && w.cfg.Nss() && w.cfg.Dns() && ChainFits(w.sources, true) && AsksDns(w.sources)
    requires !NscdResolves(w) && AlwaysHandedOn(w) && n >= |w.sources| + 5
    ensures |Run(w, START, Quiet(n)).judged| == 2 <==> !IsNscd(w, w.userOnDns)
  {
    hide Decide, Run, AlwaysHandedOn, Quiet;
    ModuleAndDnsJudgeOnceIff(w, n);
  }

  // ---- The hops are the front-ends -----------------------------------------------------------

  /** The nscd hop goes on exactly when the nscd front-end forwards the request. */
  lemma NscdHopIsTheFrontEnd(w: World, s: State, r: NscdProtocol.Request, answers: bool)
    requires s.place == AtNscdFront && NscdProtocol.IsHostLookup(r.ty)
    requires NscdProtocol.Hostname(r) == Some(w.hostname)
    ensures var front := NscdFrontend.Frontend(w.engine, w.local);
      Step(w, s, answers).place == AtNscd
      <==> NscdFrontend.ReplyFor(front, r, w.user, NscdFrontend.Silent).sent == [r.raw]
  {
  }

  /** The DNS hop goes on exactly when the DNS front-end sends the query upstream. */
  lemma DnsHopIsTheFrontEnd(w: World, s: State, inNscd: bool, q: DnsMessage.Query,
                            transport: DnsFrontend.Transport, up: DnsFrontend.Upstream, answers: bool)
    requires s.place == AtDnsServer(inNscd) && w.cfg.Dns() && up.reachable
    requires DnsFrontend.Hostname(q) == w.dnsName && DnsMessage.HEADER_LEN <= q.question.end <= |q.raw|
    ensures var caller := if inNscd then w.nscdOnDns else w.userOnDns;
      var judged := DnsFrontend.Judge(DnsSide(w), DnsFrontend.Hostname(q), caller);
      Step(w, s, answers).place == AtUpstream <==> DnsFrontend.Act(q, judged, transport, up).sent == [q.raw]
  {
  }
}
