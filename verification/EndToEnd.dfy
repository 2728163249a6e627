/** Analysis and code generation together: generated code of analysed words runs within its return stack. */
module EndToEnd {
  import opened Base
  import opened Machine
  import opened Effects
  import opened Flow
  import opened FlowSound
  import opened Runtime
  import opened Simulation
  import opened Assignment

  // ----- any words -----

  /** How the generated code of a word with dout results ends: it holds the elements of below untouched and, once it has
      returned, dout more elements. */
  predicate EndsSafely(r: RtState, rp0: nat, below: seq<int32>, dout: int) {
    && ToCells(below) <= r.data
    && (r.ip.None? ==> r.rp == rp0 && dout >= 0 && |r.data| == |below| + dout)
  }

  /** After n rounds, the generated code has stayed within its stacks, or a native word did not return. */
  ghost predicate SafeAfter(c: Build, natives: Natives, rp0: nat, w: nat, below: seq<int32>, args: seq<int32>,
                            rs: seq<uint32>, dout: int, first: Locals, inits: nat -> Locals, n: nat)
    requires rp0 <= |rs| && w < |c.words| == |c.t.slots| && c.words[w].Interpreted?
  {
    var m, s := RtStart(c.img, c.t.slots[w], ToCells(below + args), rs, rp0),
                StartOn(c.words, first, |rs| - rp0, w, below + args);
    m.Some? && s.Some? &&
    match RtRun(c.img, natives, m.value, n)
    case None => StuckWithin(c.words, natives, inits, |rs| - rp0, s.value, n)
    case Some(r) => EndsSafely(r, rp0, below, dout)
  }

  /** The generated code of an analysed entry point, with a return stack of at least the computed size and with any
      contents of its memory, never leaves its stacks, and leaves the elements below its arguments alone; it returns
      with as many elements as the effect of the word says; and only a native word that does not return can stop it. */
  lemma AnalysedCodeIsSafe(c: Build, declared: seq<SType>, natives: Natives, T: seq<Info>, rp0: nat, w: nat,
                           below: seq<int32>, args: seq<int32>, rs: seq<uint32>)
    returns (first: Locals, inits: nat -> Locals)
    requires c.Ok() && Checked(c.words, declared, natives, T)
    requires w < |c.words| == |T| && c.words[w].Interpreted? && T[w].flow == 1 && |args| == T[w].effect.din
    requires rp0 + T[w].maxReturnStack <= |rs|
    ensures |c.t.slots| == |c.words|
    ensures forall n: nat :: SafeAfter(c, natives, rp0, w, below, args, rs, T[w].effect.dout, first, inits, n)
    ensures forall n: nat :: Follows(c, natives, rp0, w, below + args, rs, first, inits, n)
  {
    hide *;
    first, inits := GeneratedCodeIsCorrect(c, natives, rp0, w, below + args, rs);
    forall n: nat ensures SafeAfter(c, natives, rp0, w, below, args, rs, T[w].effect.dout, first, inits, n) {
      AnalysedRunSafe(c.words, declared, natives, T, w, below, args, first, inits, |rs| - rp0, n);
      SafeEnd(c, declared, natives, T, rp0, w, below, args, rs, first, inits, n);
    }
  }

  lemma SafeEnd(c: Build, declared: seq<SType>, natives: Natives, T: seq<Info>, rp0: nat, w: nat, below: seq<int32>,
                args: seq<int32>, rs: seq<uint32>, first: Locals, inits: nat -> Locals, n: nat)
    requires w < |c.words| == |c.t.slots| == |T| && c.words[w].Interpreted? && rp0 <= |rs|
    requires Follows(c, natives, rp0, w, below + args, rs, first, inits, n)
    requires var s := StartOn(c.words, first, |rs| - rp0, w, below + args);
             s.Some? &&
             match RunOn(c.words, natives, inits, |rs| - rp0, s.value, 0, n)
             case None => StuckWithin(c.words, natives, inits, |rs| - rp0, s.value, n)
             case Some(t) =>
               && below <= t.stack && Cells(t.frames) <= T[w].maxReturnStack
               && (t.ip.None? ==> T[w].effect.dout >= 0 && |t.stack| == |below| + T[w].effect.dout)
    ensures SafeAfter(c, natives, rp0, w, below, args, rs, T[w].effect.dout, first, inits, n)
  {
    hide StuckWithin, RunOn, RtRun, RtStart, StartOn, Cells;
    var s := StartOn(c.words, first, |rs| - rp0, w, below + args).value;
    var t := RunOn(c.words, natives, inits, |rs| - rp0, s, 0, n);
    if t.Some? {
      assert ToCells(below) == ToCells(t.value.stack)[..|below|];
    }
  }

  // ----- words that write their locals before they read them -----

  /** The CPU and the generated code end alike: both fail, or both hold the same data stack, with the elements of below
      untouched, and both have returned, with dout more elements, or neither has. */
  predicate EndsLike(t: Option<State>, r: Option<RtState>, rp0: nat, below: seq<int32>, dout: int) {
    if t.None? then r.None?
    else
      && r.Some? && below <= t.value.stack && r.value.data == ToCells(t.value.stack)
         && (r.value.ip.None? <==> t.value.ip.None?)
      && (r.value.ip.None? ==> r.value.rp == rp0 && dout >= 0 && |t.value.stack| == |below| + dout)
  }

  /** When each word surely writes its locals before it reads them, the generated code of an analysed entry point, with
      a return stack of at least the computed size, ends like the virtual CPU, whatever the memory holds. */
  lemma AnalysedCodeIsCorrect(c: Build, declared: seq<SType>, natives: Natives, T: seq<Info>, rp0: nat, w: nat,
                              below: seq<int32>, args: seq<int32>, rs: seq<uint32>, n: nat)
    requires c.Ok() && Checked(c.words, declared, natives, T) && AllAssigned(c.words)
    requires w < |c.words| == |T| && c.words[w].Interpreted? && T[w].flow == 1 && |args| == T[w].effect.din
    requires rp0 + T[w].maxReturnStack <= |rs|
    ensures |c.t.slots| == |c.words|
    ensures var m := RtStart(c.img, c.t.slots[w], ToCells(below + args), rs, rp0);
            m.Some? && EndsLike(Run(c.words, natives, Start(c.words, w, below + args), n),
                                RtRun(c.img, natives, m.value, n),
                                rp0, below, T[w].effect.dout)
  {
    hide Build.Ok, Checked, AllAssigned, Build.AddressOf, LiveState, RtRun, RunOn, Run, StartOn, RtStart, StuckWithin,
         Cells;
    AssignedCodeIsCorrect(c, natives, rp0, w, below + args, rs, n);
    AnalysedRunSafe(c.words, declared, natives, T, w, below, args, UNWRITTEN, DEFAULTS, |rs| - rp0, n);
    RunIsLimited(c.words, declared, natives, T, w, below, args, |rs| - rp0, n);
  }

  /** The virtual CPU, whose return stack has no limit, runs an analysed word like one with the computed size. */
  lemma RunIsLimited(words: seq<Word>, declared: seq<SType>, natives: Natives, T: seq<Info>, w: nat, below: seq<int32>,
                     args: seq<int32>, cells: nat, n: nat)
    requires Checked(words, declared, natives, T) && w < |words| == |T| && words[w].Interpreted? && T[w].flow == 1
    requires |args| == T[w].effect.din && T[w].maxReturnStack <= cells
    ensures var s := StartOn(words, UNWRITTEN, cells, w, below + args);
            s.Some? && s.value == Start(words, w, below + args)
            && RunOn(words, natives, DEFAULTS, cells, s.value, 0, n) ==
               Run(words, natives, Start(words, w, below + args), n)
  {
    hide Checked, LiveState, RunOn, Run, Cells;
    SameSizes(words, declared, natives, T);
    StartOnLive(words, declared, natives, T, w, args, UNWRITTEN, cells, below);
    var s := StartOn(words, UNWRITTEN, cells, w, args).value;
    StartUnwritten(words, cells, w, below + args);
    RunOnIsRun(words, declared, natives, T, T[w].effect.dout, WordLimits(T[w]), cells, s, 0, n, below);
  }

  lemma StartUnwritten(words: seq<Word>, cells: nat, w: nat, stack: seq<int32>)
    requires w < |words| && words[w].Interpreted? && StartOn(words, UNWRITTEN, cells, w, stack).Some?
    ensures StartOn(words, UNWRITTEN, cells, w, stack).value == Start(words, w, stack)
  {
    var t := Start(words, w, stack);
    assert t.frames[..0] + [t.frames[0]] == t.frames;
    assert Fill(t, UNWRITTEN).frames[0].locals == t.frames[0].locals;
  }
}
