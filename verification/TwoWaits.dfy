/** Asking a server: the client sends a request and waits twice on one counter, for the acknowledgement and for
    the reply that the server pushes.  Both callbacks take one off the counter, whichever comes first, and the
    wait loop may let both run before it looks. */
module TwoWaits {
  import opened Options

  datatype Phase = FirstWait | SecondWait | Returned

  datatype Event = Ack | Reply | Look

  datatype State = State(phase: Phase, todo: int, acked: bool, replied: bool)

  predicate Enabled(s: State, e: Event) {
    match e
    case Ack => !s.acked
    case Reply => !s.replied
    case Look => s.todo <= 0 && s.phase != Returned
  }

  function Step(s: State, e: Event): State
    requires Enabled(s, e)
  {
    match e
    case Ack => s.(acked := true, todo := s.todo - 1)
    case Reply => s.(replied := true, todo := s.todo - 1)
    case Look => if s.phase == FirstWait then s.(phase := SecondWait, todo := 1) else s.(phase := Returned)
  }

  const START := State(FirstWait, 1, false, false)

  function Run(es: seq<Event>): Option<State> {
    if es == [] then Some(START)
    else
      match Run(es[..|es| - 1])
      case Some(s) => if Enabled(s, es[|es| - 1]) then Some(Step(s, es[|es| - 1])) else None
      case None => None
  }

  // Both callbacks have run, and the loop has looked as long as there was something to see.
  ghost predicate Complete(es: seq<Event>) {
    var r := Run(es);
    r.Some? && r.value.acked && r.value.replied && !Enabled(r.value, Look)
  }

  // Both callbacks ran before the loop first looked.
  predicate Together(es: seq<Event>) {
    es != [] &&
    var before := es[..|es| - 1];
    Together(before) || (es[|es| - 1] == Look && Look !in before && Ack in before && Reply in before)
  }

  ghost predicate Inv(es: seq<Event>, s: State) {
    && (s.acked <==> Ack in es) && (s.replied <==> Reply in es)
    && (s.phase == FirstWait <==> Look !in es)
    && (s.phase == FirstWait ==> !Together(es) && s.todo == 1 - Both(s))
    && (s.phase == SecondWait && Together(es) ==> s.acked && s.replied && s.todo == 1)
    && (s.phase == SecondWait && !Together(es) ==> Both(s) >= 1 && s.todo == 2 - Both(s))
    && (s.phase == Returned ==> !Together(es) && s.acked && s.replied)
  }

  function Both(s: State): int {
    (if s.acked then 1 else 0) + if s.replied then 1 else 0
  }

  lemma StepKeepsInv(es: seq<Event>, e: Event, s: State)
    requires Inv(es, s) && Enabled(s, e)
    ensures Inv(es + [e], Step(s, e))
  {
    assert (es + [e])[..|es|] == es;
  }

  lemma {:induction false} RunKeepsInv(es: seq<Event>)
    requires Run(es).Some?
    ensures Inv(es, Run(es).value)
  {
    if es == [] {
    } else {
      var n := |es| - 1;
      RunKeepsInv(es[..n]);
      StepKeepsInv(es[..n], es[n], Run(es[..n]).value);
      assert es == es[..n] + [es[n]];
    }
  }

  /** The client returns from its second wait exactly when it looked between the two callbacks; otherwise it
      waits there for good. */
  lemma ReturnsExactly(es: seq<Event>)
    requires Complete(es)
    ensures var s := Run(es).value;
            (s.phase == Returned <==> !Together(es)) && (s.phase != Returned ==> s.phase == SecondWait && s.todo == 1)
  {
    RunKeepsInv(es);
  }

  // Both callbacks run before the loop looks: the client hangs.
  lemma BothFirstHangs() returns (es: seq<Event>)
    ensures Complete(es) && Together(es) && Run(es).value.phase == SecondWait && Run(es).value.todo == 1
  {
    es := [Ack, Reply, Look];
    assert es[..2] == [Ack, Reply] && es[..2][..1] == [Ack] && es[..2][..1][..0] == [];
    assert Run([Ack]) == Some(State(FirstWait, 0, true, false));
    assert Run([Ack, Reply]) == Some(State(FirstWait, -1, true, true));
  }

  // It looks between them: the client comes back.
  lemma LookBetweenReturns() returns (es: seq<Event>)
    ensures Complete(es) && !Together(es) && Run(es).value.phase == Returned
  {
    es := [Ack, Look, Reply, Look];
    assert es[..3] == [Ack, Look, Reply] && es[..3][..2] == [Ack, Look] && es[..3][..2][..1] == [Ack];
    assert [Ack][..0] == [];
    assert Run([Ack]) == Some(State(FirstWait, 0, true, false));
    assert Run([Ack, Look]) == Some(State(SecondWait, 1, true, false));
    assert Run([Ack, Look, Reply]) == Some(State(SecondWait, 0, true, true));
    assert !Together([Ack]) && !Together([Ack, Look]) && !Together([Ack, Look, Reply]);
  }
}
