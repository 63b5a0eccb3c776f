/** Whether a report lets a caller retry (crates/folk-computer-use/src/praefectus_adapter.rs). */
module RetrySafety {

  datatype Terminal =
    | Rejected(code: string)
    | CancelledBeforeEffect
    | ExpiredBeforeEffect
    | OtherTerminal(name: string)

  datatype AckState = Terminated(terminal: Terminal) | Pending(name: string)

  predicate ProvesNoEffect(terminal: Terminal) {
    terminal.Rejected? || terminal.CancelledBeforeEffect? || terminal.ExpiredBeforeEffect?
  }

  /** The terminals of the acknowledgements, in order. */
  function Terminals(acks: seq<AckState>): seq<Terminal> {
    if acks == [] then []
    else (if acks[0].Terminated? then [acks[0].terminal] else []) + Terminals(acks[1..])
  }

  predicate AllProveNoEffect(terminals: seq<Terminal>) {
    terminals == [] || (ProvesNoEffect(terminals[0]) && AllProveNoEffect(terminals[1..]))
  }

  predicate IsRetrySafe(acks: seq<AckState>) {
    var terminals := Terminals(acks);
    terminals != [] && ProvesNoEffect(terminals[0]) && AllProveNoEffect(terminals[1..])
  }

  /** No terminal, or one of the three after which nothing can have happened. */
  predicate Harmless(ack: AckState) {
    ack.Pending? || ack.terminal.Rejected?
    || ack.terminal == CancelledBeforeEffect || ack.terminal == ExpiredBeforeEffect
  }

  lemma {:induction false} TerminalsHarmless(acks: seq<AckState>)
    ensures AllProveNoEffect(Terminals(acks)) <==> forall i :: 0 <= i < |acks| ==> Harmless(acks[i])
    ensures Terminals(acks) == [] <==> forall i :: 0 <= i < |acks| ==> !acks[i].Terminated?
  {
    if acks != [] {
      TerminalsHarmless(acks[1..]);
      assert forall i :: 1 <= i < |acks| ==> acks[i] == acks[1..][i - 1];
      if acks[0].Terminated? {
        assert Terminals(acks)[1..] == Terminals(acks[1..]);
      } else {
        assert Terminals(acks) == Terminals(acks[1..]);
      }
    }
  }

  /** Retrying is safe exactly when something terminated and every terminal proves no effect. */
  lemma SafeExactly(acks: seq<AckState>)
    ensures IsRetrySafe(acks)
            <==> (exists i :: 0 <= i < |acks| && acks[i].Terminated?)
                 && (forall i :: 0 <= i < |acks| ==> Harmless(acks[i]))
  {
    TerminalsHarmless(acks);
  }

  /** The order of the acknowledgements does not matter. */
  lemma SafeUnderPermutation(a: seq<AckState>, b: seq<AckState>)
    requires multiset(a) == multiset(b)
    ensures IsRetrySafe(a) == IsRetrySafe(b)
  {
    SafeExactly(a);
    SafeExactly(b);
    assert forall x :: x in a <==> x in multiset(a);
    assert forall x :: x in b <==> x in multiset(b);
    assert (exists i :: 0 <= i < |a| && a[i].Terminated?) <==> exists x :: x in a && x.Terminated?;
    assert (exists i :: 0 <= i < |b| && b[i].Terminated?) <==> exists x :: x in b && x.Terminated?;
    assert (forall i :: 0 <= i < |a| ==> Harmless(a[i])) <==> forall x :: x in a ==> Harmless(x);
    assert (forall i :: 0 <= i < |b| ==> Harmless(b[i])) <==> forall x :: x in b ==> Harmless(x);
  }

  /** Once a terminal leaves an effect possible, nothing acknowledged before or after it makes
      a retry safe. */
  lemma UnsafeForever(before: seq<AckState>, terminal: Terminal, after: seq<AckState>)
    requires terminal.OtherTerminal?
    ensures !IsRetrySafe(before + [Terminated(terminal)] + after)
  {
    var acks := before + [Terminated(terminal)] + after;
    SafeExactly(acks);
    assert !Harmless(acks[|before|]);
  }
}
