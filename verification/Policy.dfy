/** The policy engine: canonical host names, callers and first-match evaluation.
    A compiled CEL expression is an arbitrary total function of its context. */
module Policy {
  import opened Bytes
  import opened Net
  import B = Blocklist

  type U32 = x: int | 0 <= x < 0x1_0000_0000

  datatype Caller = Caller(uid: Option<U32>, gid: Option<U32>, pid: Option<int>) {
    /** What a rule sees for `uid`: -1 when it is unknown. */
    function UidValue(): (v: int)
      ensures v == -1 <==> uid.None?
    {
      if uid.Some? then uid.value else -1
    }

    function GidValue(): (v: int)
      ensures v == -1 <==> gid.None?
    {
      if gid.Some? then gid.value else -1
    }

    function PidValue(): int {
      if pid.Some? then pid.value else -1
    }
  }

  const UNKNOWN := Caller(None, None, None)

  // ---- Canonical names ---------------------------------------------------------

  function TrimDots(s: Str): (r: Str)
    ensures r == [] || r[|r| - 1] != DOT
    ensures r <= s
  {
    if s != [] && s[|s| - 1] == DOT then TrimDots(s[..|s| - 1]) else s
  }

  const ROOT: Str := [DOT]

  /** `canonical_hostname`. */
  function Canonical(name: Str): (r: Str)
    ensures r != []
    ensures r == ROOT || r[|r| - 1] != DOT
  {
    var trimmed := TrimDots(Lower(name));
    if trimmed == [] then ROOT else trimmed
  }

  lemma CanonicalIdempotent(name: Str)
    ensures Canonical(Canonical(name)) == Canonical(name)
  {
  }

  function Dots(n: nat): (r: Str)
    ensures |r| == n && forall b <- r :: b == DOT
  {
    seq(n, _ => DOT)
  }

  lemma {:induction false} TrimDotsAppend(s: Str, n: nat)
    ensures TrimDots(s + Dots(n)) == TrimDots(s)
    decreases n
  {
    if n == 0 {
      assert s + Dots(0) == s;
    } else {
      assert (s + Dots(n))[..|s| + n - 1] == s + Dots(n - 1);
      TrimDotsAppend(s, n - 1);
    }
  }

  /** Case and trailing dots never matter. */
  lemma CanonicalAbsorbs(name: Str, n: nat)
    ensures Canonical(name + Dots(n)) == Canonical(name) == Canonical(Lower(name))
  {
    hide TrimDots;
    LowerIdempotent(name);
    LowerIdempotent(Lower(name));
    TrimDotsAppend(Lower(name), n);
    assert Lower(name + Dots(n)) == Lower(name) + Dots(n);
  }

  // ---- The engine --------------------------------------------------------------

  datatype CelInput = CelInput(hostname: Str, uid: int, gid: int, pid: int, blocked: map<Str, bool>)
  datatype CelOutcome = True | NotTrue | Error

  datatype RuleVerdict = Allow | Deny | Passthrough
  datatype DefaultVerdict = DefaultPassthrough | DefaultDeny

  datatype Rule = Rule(note: Str, program: CelInput -> CelOutcome, verdict: RuleVerdict)

  datatype Engine = Engine(rules: seq<Rule>, blocklists: map<Str, B.Blocklist>, fallback: DefaultVerdict)

  datatype Reason = MatchedRule(note: Str) | DefaultPolicy(hostname: Str)

  datatype Verdict = Denied(reason: Reason) | PassThrough | Allowed

  ghost function Context(engine: Engine, hostname: Str, caller: Caller): CelInput {
    var host := Canonical(hostname);
    CelInput(host, caller.UidValue(), caller.GidValue(), caller.PidValue(),
             map name | name in engine.blocklists :: B.Blocks(engine.blocklists[name], host))
  }

  function RuleResult(rule: Rule): Verdict {
    match rule.verdict
    case Allow => Allowed
    case Deny => Denied(MatchedRule(rule.note))
    case Passthrough => PassThrough
  }

  function DefaultResult(fallback: DefaultVerdict, host: Str): Verdict {
    if fallback.DefaultDeny? then Denied(DefaultPolicy(host)) else PassThrough
  }

  /** First match wins; a rule that errs or is not true is skipped. */
  function FirstMatch(rules: seq<Rule>, input: CelInput, fallback: DefaultVerdict): Verdict {
    if rules == [] then DefaultResult(fallback, input.hostname)
    else if rules[0].program(input) == True then RuleResult(rules[0])
    else FirstMatch(rules[1..], input, fallback)
  }

  ghost function Evaluate(engine: Engine, hostname: Str, caller: Caller): Verdict {
    FirstMatch(engine.rules, Context(engine, hostname, caller), engine.fallback)
  }

  /** `evaluate_for`: list membership is computed once, then the rules are tried in order. */
  method EvaluateFor(engine: Engine, hostname: Str, caller: Caller) returns (verdict: Verdict)
    ensures verdict == Evaluate(engine, hostname, caller)
  {
    hide Canonical, B.Blocks;
    var host := Canonical(hostname);
    var blocked: map<Str, bool> := map[];
    var names := engine.blocklists.Keys;
    while names != {}
      invariant names <= engine.blocklists.Keys
      invariant blocked.Keys == engine.blocklists.Keys - names
      invariant forall n <- blocked :: blocked[n] == B.Blocks(engine.blocklists[n], host)
      decreases |names|
    {
      var name :| name in names;
      var listed := B.Contains(engine.blocklists[name], host);
      blocked := blocked[name := listed];
      names := names - {name};
    }
    ghost var input := Context(engine, hostname, caller);
    assert blocked == input.blocked;
    for i := 0 to |engine.rules|
      invariant Evaluate(engine, hostname, caller) == FirstMatch(engine.rules[i..], input, engine.fallback)
    {
      var rule := engine.rules[i];
      assert engine.rules[i..][1..] == engine.rules[i + 1..];
      if rule.program(CelInput(host, caller.UidValue(), caller.GidValue(), caller.PidValue(), blocked)) == True {
        return RuleResult(rule);
      }
    }
    verdict := DefaultResult(engine.fallback, host);
  }

  /** The verdict is that of the least-index rule that is true, or else the default. */
  lemma {:induction false} FirstMatchIsLeast(rules: seq<Rule>, input: CelInput, fallback: DefaultVerdict)
    ensures (forall i :: 0 <= i < |rules| ==> rules[i].program(input) != True)
            ==> FirstMatch(rules, input, fallback) == DefaultResult(fallback, input.hostname)
    ensures forall k :: 0 <= k < |rules| && rules[k].program(input) == True
              && (forall i :: 0 <= i < k ==> rules[i].program(input) != True)
              ==> FirstMatch(rules, input, fallback) == RuleResult(rules[k])
  {
    if rules != [] {
      FirstMatchIsLeast(rules[1..], input, fallback);
      assert forall k :: 0 < k < |rules| ==> rules[k] == rules[1..][k - 1];
    }
  }

  /** Deleting a rule that errs or is not true on an input changes nothing for it. */
  lemma {:induction false} SkippedRuleIsInert(rules: seq<Rule>, k: nat, input: CelInput, fallback: DefaultVerdict)
    requires k < |rules| && rules[k].program(input) != True
    ensures FirstMatch(rules[..k] + rules[k + 1..], input, fallback) == FirstMatch(rules, input, fallback)
  {
    if k == 0 {
      assert rules[..0] + rules[1..] == rules[1..];
    } else {
      SkippedRuleIsInert(rules[1..], k - 1, input, fallback);
      assert (rules[..k] + rules[k + 1..])[1..] == rules[1..][..k - 1] + rules[1..][k..];
    }
  }

  /** The whole result, reason included, is a function of the canonical name. */
  lemma EvaluateRespectsCanonical(engine: Engine, a: Str, b: Str, caller: Caller)
    requires Canonical(a) == Canonical(b)
    ensures Evaluate(engine, a, caller) == Evaluate(engine, b, caller)
            == Evaluate(engine, Canonical(a), caller)
  {
    CanonicalIdempotent(a);
  }

  // ---- Acting on a verdict -----------------------------------------------------

  /** What every front-end makes of a verdict: refuse, hand the name on, or answer
      with the daemon's own records when it has any for an allowed name. */
  datatype Decision = Refuse(reason: Reason) | HandOn | AnswerWith(addrs: seq<Ip>)

  /** `local` stands for `upstream_resolve`, asked with the name as the front-end has it. */
  ghost function Decide(engine: Engine, local: Str -> seq<Ip>, hostname: Str, caller: Caller): (d: Decision)
    ensures d.Refuse? <==> Evaluate(engine, hostname, caller).Denied?
    ensures d.AnswerWith? <==> Evaluate(engine, hostname, caller).Allowed? && local(hostname) != []
  {
    match Evaluate(engine, hostname, caller)
    case Denied(reason) => Refuse(reason)
    case PassThrough => HandOn
    case Allowed => if local(hostname) == [] then HandOn else AnswerWith(local(hostname))
  }

  // ---- Blocklist entries seen through the engine ---------------------------------

  /** Names reach the lists in canonical form, so an entry with a trailing dot (other
      than the root itself) can never match: it is dead exactly then. */
  lemma DeadEntryIff(d: Str, suffix: bool)
    requires B.WellFormed(d)
    ensures var list := if suffix then B.Blocklist({}, {d}) else B.Blocklist({d}, {});
      (exists name :: B.Blocks(list, Canonical(name))) <==> d == ROOT || d[|d| - 1] != DOT
  {
    hide Canonical, Lower, B.DomainByte;
    var list := if suffix then B.Blocklist({}, {d}) else B.Blocklist({d}, {});
    if d == ROOT || d[|d| - 1] != DOT {
      CanonicalEntry(d);
      assert B.Blocks(list, Canonical(d));
    } else {
      forall name ensures !B.Blocks(list, Canonical(name)) {
        CanonicalIsLower(name);
        NothingBelow(Canonical(name), d);
      }
    }
  }

  lemma CanonicalEntry(d: Str)
    requires IsLower(d) && (d == ROOT || (d != [] && d[|d| - 1] != DOT))
    ensures Canonical(d) == d && Lower(d) == d
  {
    LowerIdempotent(d);
  }

  lemma NothingBelow(host: Str, d: Str)
    requires host == ROOT || (host != [] && host[|host| - 1] != DOT)
    requires d != ROOT && d != [] && d[|d| - 1] == DOT
    ensures host != d && !B.Subdomain(host, d)
  {
  }

  lemma CanonicalIsLower(name: Str)
    ensures Lower(Canonical(name)) == Canonical(name)
  {
  }
}
