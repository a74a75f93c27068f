/** What the front-ends agree on when they judge the same name. */
module Agreement {
  import opened Bytes
  import opened Net
  import opened Policy
  import opened DnsMessage
  import DnsFrontend
  import Utf8

  ghost predicate Text(labels: seq<seq<Byte>>) {
    labels == [] || (Utf8.Valid(labels[0]) && Text(labels[1..]))
  }

  lemma LowerAppend(a: Str, b: Str)
    ensures Lower(a + b) == Lower(a) + Lower(b)
  {
  }

  lemma {:induction false} JoinOfTexts(labels: seq<seq<Byte>>)
    requires Text(labels)
    ensures Join(LabelTexts(labels)) == Lower(Join(labels))
  {
    hide Utf8.Valid, Utf8.Lossy, Lower;
    LowerOfSmall();
    if labels != [] {
      var first, tail := labels[0], labels[1..];
      Utf8.LossyFixesExactlyValid(first);
      JoinOfTexts(tail);
      assert LabelTexts(labels)[0] == Lower(first) && LabelTexts(labels)[1..] == LabelTexts(tail);
      if tail != [] {
        LowerAppend(first + [DOT], Join(tail));
        LowerAppend(first, [DOT]);
      }
    }
  }

  lemma LowerOfSmall()
    ensures Lower([]) == [] && Lower([DOT]) == [DOT]
  {
  }

  /** The question round trip: for labels that are text, the parsed name is the labels
      joined and lower-cased, and splits back into them exactly when none holds a dot. */
  lemma QuestionRoundTrip(raw: seq<Byte>, labels: seq<seq<Byte>>)
    requires Asks(raw, labels) && Text(labels) && labels != []
    ensures Parse(raw).Ok? && Parse(raw).value.question.name == Lower(Join(labels))
    ensures Split(Parse(raw).value.question.name) == LabelTexts(labels) <==> forall l <- labels :: DOT !in l
    ensures forall i :: 0 <= i < |labels| ==> LabelTexts(labels)[i] == Lower(labels[i])
  {
    hide Parse, Asks, Lower, Split, Join, Utf8.Valid, Utf8.Lossy;
    ParseInvertsEncoding(raw, labels);
    NameOfAsked(raw, labels);
    JoinOfTexts(labels);
    NameSplitsIntoLabels(labels);
    LabelsAreLowered(labels);
  }

  lemma NameOfAsked(raw: seq<Byte>, labels: seq<seq<Byte>>)
    requires Asks(raw, labels)
    ensures QueryAsked(raw, labels).question.name == Join(LabelTexts(labels))
  {
  }

  lemma {:induction false} LabelsAreLowered(labels: seq<seq<Byte>>)
    requires Text(labels)
    ensures forall i :: 0 <= i < |labels| ==> LabelTexts(labels)[i] == Lower(labels[i])
  {
    hide Utf8.Valid, Utf8.Lossy, Lower;
    if labels != [] {
      Utf8.LossyFixesExactlyValid(labels[0]);
      LabelsAreLowered(labels[1..]);
      assert forall i :: 0 < i < |labels| ==> labels[i] == labels[1..][i - 1];
      assert LabelTexts(labels) == [LabelText(labels[0])] + LabelTexts(labels[1..]);
    }
  }

  /** The name the DNS front-end judges is, in canonical form, the name as the client
      spelled it, in any case and with any trailing dots. */
  lemma WireNameIsTheName(raw: seq<Byte>, labels: seq<seq<Byte>>, dots: nat)
    requires Asks(raw, labels) && Text(labels)
    ensures Parse(raw).Ok?
    ensures Canonical(DnsFrontend.Hostname(Parse(raw).value)) == Canonical(Join(labels) + Dots(dots))
  {
    hide Canonical, Asks, LabelTexts, Parse, Lower, Dots;
    ParseInvertsEncoding(raw, labels);
    JoinOfTexts(labels);
    CanonicalAbsorbs(Join(labels), dots);
    RootIsCanonical();
  }

  /** The DNS front-end, which sees lower-cased labels from the wire, reaches the same
      verdict, reason included, as the nscd front-end and the policy socket reach for the
      name as the client spelled it. */
  lemma FrontEndsAgree(engine: Engine, raw: seq<Byte>, labels: seq<seq<Byte>>, dots: nat, caller: Caller)
    requires Asks(raw, labels) && Text(labels)
    ensures Parse(raw).Ok?
    ensures Evaluate(engine, DnsFrontend.Hostname(Parse(raw).value), caller)
         == Evaluate(engine, Join(labels) + Dots(dots), caller)
  {
    hide Evaluate, Canonical, Asks, Parse, Dots;
    WireNameIsTheName(raw, labels, dots);
    EvaluateRespectsCanonical(engine, DnsFrontend.Hostname(Parse(raw).value), Join(labels) + Dots(dots), caller);
  }

  lemma RootIsCanonical()
    ensures Canonical([]) == ROOT == Canonical(ROOT)
  {
  }

  /** Names with one canonical form get one decision exactly when, if the name is
      allowed, the local records are the same under both spellings. */
  lemma DecisionsAgreeIff(engine: Engine, local: Str -> seq<Ip>, a: Str, b: Str, caller: Caller)
    requires Canonical(a) == Canonical(b)
    ensures Decide(engine, local, a, caller) == Decide(engine, local, b, caller)
       <==> (Evaluate(engine, a, caller).Allowed? ==> local(a) == local(b))
  {
  }

  // "example.local", the one record of the built-in table, and another spelling of it.
  const EXAMPLE: Str := [101, 120, 97, 109, 112, 108, 101, 46, 108, 111, 99, 97, 108]
  const SPELLED: Str := [69, 120, 97, 109, 112, 108, 101, 46, 108, 111, 99, 97, 108]

  /** `upstream_resolve`. */
  function UpstreamResolve(hostname: Str): seq<Ip> {
    if hostname == EXAMPLE then [V4([10, 0, 0, 1])] else []
  }

  const ALLOW_ALL := Engine([Rule([], _ => True, Allow)], map[], DefaultPassthrough)

  /** Two spellings of one name, of which only the second is answered locally. */
  ghost predicate Disagree(engine: Engine, local: Str -> seq<Ip>, a: Str, b: Str, caller: Caller) {
    && Canonical(a) == Canonical(b)
    && Decide(engine, local, a, caller) == HandOn
    && local(b) != [] && Decide(engine, local, b, caller) == AnswerWith(local(b))
  }

  /** They do differ: "Example.local" is answered locally by the DNS front-end, which
      looks up the lower-cased name, and handed on by the others. */
  lemma LocalRecordsMayDisagree(caller: Caller)
    ensures Lower(SPELLED) == EXAMPLE && Disagree(ALLOW_ALL, UpstreamResolve, SPELLED, EXAMPLE, caller)
  {
    hide Canonical;
    assert Lower(SPELLED) == EXAMPLE;
    CanonicalAbsorbs(SPELLED, 0);
    assert ALLOW_ALL.rules[0].program(Context(ALLOW_ALL, SPELLED, caller)) == True;
    assert ALLOW_ALL.rules[0].program(Context(ALLOW_ALL, EXAMPLE, caller)) == True;
    assert SPELLED[0] != EXAMPLE[0];
  }
}
