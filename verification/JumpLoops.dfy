/** A word whose jumps have no end: it has an effect, but its analysis fails. */
module JumpLoops {
  import opened Base
  import opened Machine
  import Builder
  import Structured
  import opened Effects
  import opened Flow
  import opened JumpQueue
  import opened Analysis

  /** `begin again` */
  const BEGIN_AGAIN: seq<Opcode> := [Jump(Always, Some(-1))]

  /** That is what the builder makes of it. */
  lemma BuiltBeginAgain()
    ensures Builder.ApplyAll(Builder.EMPTY, Structured.Actions(Structured.BeginAgain(Structured.Skip))).Some?
    ensures var b := Builder.ApplyAll(Builder.EMPTY, Structured.Actions(Structured.BeginAgain(Structured.Skip))).value;
            Builder.Finish(b).Some? && Builder.Finish(b).value.code == BEGIN_AGAIN
  {
    var actions := Structured.Actions(Structured.BeginAgain(Structured.Skip));
    assert actions == [Builder.Begin, Builder.Again(Always)];
  }

  /** It has an outcome: it takes nothing, needs one cell of the return stack, and never exits. But it is a loop of
      jumps. */
  lemma BeginAgainLoops(dsLimit: nat, rsLimit: nat)
    requires rsLimit >= 1
    ensures var words := [Interpreted(0, BEGIN_AGAIN)]; var G := [Info(1, SType(0, -1), 1, 0)];
            Acceptable(words, [UNKNOWN], G, [0], dsLimit, rsLimit) && SomeLoops(words, G, [0])
  {
    var words, G := [Interpreted(0, BEGIN_AGAIN)], [Info(1, SType(0, -1), 1, 0)];
    var c := Cert([Some(0)], None, 0, 0, 0);
    var path: seq<nat> := [0];
    assert Path(G, BEGIN_AGAIN, path);
    assert CertOk(words, G, BEGIN_AGAIN, c);
    assert AnalysedWith(words, [UNKNOWN], G, 0, c);
    assert InfoOk(words, [UNKNOWN], G, 0);
    forall fuel: nat ensures Met(BEGIN_AGAIN, 0, fuel) == fuel {
      LoopIsEndless(BEGIN_AGAIN, {0}, 0, fuel);
    }
    assert Endless(BEGIN_AGAIN, 0);
    assert Loops(words, G, [0][0]);
  }

  /** Its analysis always fails: the queue fills. */
  method AnalyseBeginAgain(dsLimit: nat, rsLimit: nat) returns (v: Verdict)
    requires rsLimit >= 1
    ensures v == QueueFull
  {
    var words := [Interpreted(0, BEGIN_AGAIN)];
    var info := new Info[1](_ => Info(0, UNKNOWN, 0, 0));
    BeginAgainLoops(dsLimit, rsLimit);
    v := AnalyseEntries(words, [UNKNOWN], info, [0], dsLimit, rsLimit);
  }
}
