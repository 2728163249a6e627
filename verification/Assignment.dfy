/** Words whose opcodes surely write each local before they read it: generated code then does what the CPU does,
    whatever the return stack memory holds. */
module Assignment {
  import opened Base
  import opened Machine
  import opened Codegen
  import opened Runtime
  import opened Simulation

  // ----- a static condition on opcodes -----

  /** The locals that are written after an opcode, if those of d are before it. */
  function WrittenAfter(d: set<nat>, op: Opcode): set<nat> {
    if op.PutLocal? then d + {op.num} else d
  }

  /** An opcode reads only written locals, and what is counted as written at its successors was written. */
  predicate AssignedAt(code: seq<Opcode>, d: seq<set<nat>>, k: nat)
    requires k < |code| == |d|
  {
    var op, j := code[k], k + 1 + code[k].JumpDisp();
    && (op.GetLocal? ==> op.num in d[k])
    && (op.JumpDisp() != 0 && 0 <= j < |code| ==> d[j] <= WrittenAfter(d[k], op))
    && (op.MayFallThrough() && k + 1 < |code| ==> d[k + 1] <= WrittenAfter(d[k], op))
  }

  /** d tells for each opcode which locals were written on every way to it. */
  predicate Assigned(code: seq<Opcode>, d: seq<set<nat>>) {
    && |d| == |code| && (code != [] ==> d[0] == {})
    && forall k | 0 <= k < |code| :: AssignedAt(code, d, k)
  }

  ghost predicate AllAssigned(words: seq<Word>) {
    forall w | 0 <= w < |words| && words[w].Interpreted? :: exists d :: Assigned(words[w].code, d)
  }

  // ----- what the condition means for runs -----

  predicate Covers(d: set<nat>, locals: seq<Option<int32>>) {
    forall x | x in d && x < |locals| :: locals[x].Some?
  }

  /** The locals that count as written where execution is were written. */
  ghost predicate TopOk(words: seq<Word>, locals: seq<Option<int32>>, ip: Ip) {
    ip.word < |words| && words[ip.word].Interpreted? && 0 <= ip.off < |words[ip.word].code| ==>
      exists d :: Assigned(words[ip.word].code, d) && Covers(d[ip.off], locals)
  }

  ghost predicate FramesOk(words: seq<Word>, frames: seq<Frame>, cur: Option<Ip>)
    decreases |frames|
  {
    frames != [] ==>
      var top := frames[|frames| - 1];
      (cur.Some? ==> TopOk(words, top.locals, cur.value)) && FramesOk(words, frames[..|frames| - 1], top.saved)
  }

  predicate Successor(op: Opcode, off: int, next: int) {
    (op.MayFallThrough() && next == off + 1) || (op.JumpDisp() != 0 && next == off + 1 + op.JumpDisp())
  }

  /** Locals before and after an opcode: written ones stay written, and so is the one that the opcode writes. */
  predicate Updated(op: Opcode, before: seq<Option<int32>>, after: seq<Option<int32>>) {
    |before| == |after| && forall x | 0 <= x < |before| :: before[x].Some? || op == PutLocal(x) ==> after[x].Some?
  }

  /** Frames before and after an opcode that stays in the topmost one. */
  predicate TopUpdated(op: Opcode, before: seq<Frame>, after: seq<Frame>) {
    var n := |before| - 1;
    if before == [] then after == []
    else
      && |after| == n + 1 && after[..n] == before[..n] && after[n].saved == before[n].saved
      && Updated(op, before[n].locals, after[n].locals)
  }

  /** What an opcode leaves behind is what its successor counts on. */
  lemma TopMoves(words: seq<Word>, locals: seq<Option<int32>>, ip: Ip, locals': seq<Option<int32>>, off: int)
    requires TopOk(words, locals, ip) && ip.word < |words| && words[ip.word].Interpreted?
    requires 0 <= ip.off < |words[ip.word].code|
    requires var op := words[ip.word].code[ip.off]; Successor(op, ip.off, off) && Updated(op, locals, locals')
    ensures TopOk(words, locals', Ip(ip.word, off))
  {
    var code := words[ip.word].code;
    var d :| Assigned(code, d) && Covers(d[ip.off], locals);
    assert AssignedAt(code, d, ip.off);
    if 0 <= off < |code| {
      assert Covers(d[off], locals');
    }
  }

  /** A word that is entered may start with any values. */
  lemma EnteredOk(words: seq<Word>, locals: seq<Option<int32>>, w: nat)
    requires AllAssigned(words)
    ensures TopOk(words, locals, Ip(w, 0))
  {
    if w < |words| && words[w].Interpreted? && words[w].code != [] {
      var d :| Assigned(words[w].code, d);
      assert Covers(d[0], locals);
    }
  }

  /** Opcodes other than calls and returns stay in their frame, where they write at most one local. */
  lemma PlainFrames(words: seq<Word>, natives: Natives, s: State, op: Opcode)
    requires s.ip.Some? && !op.Call? && !op.Ret? && Execute(words, natives, JumpBy(s, 1), op).Some?
    ensures var t := Execute(words, natives, JumpBy(s, 1), op).value;
            && t.ip.Some? && t.ip.value.word == s.ip.value.word
            && Successor(op, s.ip.value.off, t.ip.value.off) && TopUpdated(op, s.frames, t.frames)
  {
  }

  lemma FramesMove(words: seq<Word>, s: State, frames: seq<Frame>, off: int)
    requires s.ip.Some? && s.ip.value.word < |words| && words[s.ip.value.word].Interpreted?
    requires 0 <= s.ip.value.off < |words[s.ip.value.word].code| && FramesOk(words, s.frames, s.ip)
    requires var op := words[s.ip.value.word].code[s.ip.value.off];
             Successor(op, s.ip.value.off, off) && TopUpdated(op, s.frames, frames)
    ensures FramesOk(words, frames, Some(Ip(s.ip.value.word, off)))
  {
    hide TopOk;
    if frames != [] {
      var n := |frames| - 1;
      TopMoves(words, s.frames[n].locals, s.ip.value, frames[n].locals, off);
    }
  }

  lemma FramesPushed(words: seq<Word>, s: State, f: Frame, w: nat)
    requires AllAssigned(words) && FramesOk(words, s.frames, s.ip) && f.saved == s.ip
    ensures FramesOk(words, s.frames + [f], Some(Ip(w, 0)))
  {
    hide TopOk, AllAssigned;
    assert (s.frames + [f])[..|s.frames|] == s.frames;
    EnteredOk(words, f.locals, w);
  }

  lemma CallKeeps(words: seq<Word>, natives: Natives, init: Locals, cells: nat, s: State)
    requires AllAssigned(words) && FramesOk(words, s.frames, s.ip)
    requires Fetch(words, s).Some? && Fetch(words, s).value.Call?
    ensures var t := StepOn(words, natives, init, cells, s); t.Some? ==> FramesOk(words, t.value.frames, t.value.ip)
  {
    hide TopOk, AllAssigned, FramesOk, Cells;
    var t := StepOn(words, natives, init, cells, s);
    if t.Some? {
      var u := Fetch(words, s).value.target.value;
      FramesMove(words, s, s.frames, s.ip.value.off + 1);
      if words[u].Interpreted? {
        var r := s.(ip := Some(Ip(s.ip.value.word, s.ip.value.off + 1)));
        var f := t.value.frames[|s.frames|];
        assert t.value.frames == s.frames + [f] && f.saved == r.ip;
        FramesPushed(words, r, f, u);
      }
    }
  }

  /** Every step keeps what counts as written. */
  lemma StepKeeps(words: seq<Word>, natives: Natives, init: Locals, cells: nat, s: State)
    requires AllAssigned(words) && FramesOk(words, s.frames, s.ip)
    ensures var t := StepOn(words, natives, init, cells, s); t.Some? ==> FramesOk(words, t.value.frames, t.value.ip)
  {
    hide TopOk, AllAssigned, Cells, Execute;
    if Fetch(words, s).Some? {
      var op := Fetch(words, s).value;
      if op.Call? {
        CallKeeps(words, natives, init, cells, s);
      } else if op.Ret? {
        ReturnKeeps(words, natives, s, op);
      } else if Execute(words, natives, JumpBy(s, 1), op).Some? {
        PlainFrames(words, natives, s, op);
        var t := Execute(words, natives, JumpBy(s, 1), op).value;
        FramesMove(words, s, t.frames, t.ip.value.off);
      }
    }
  }

  lemma ReturnKeeps(words: seq<Word>, natives: Natives, s: State, op: Opcode)
    requires FramesOk(words, s.frames, s.ip) && s.ip.Some? && op.Ret?
    ensures var t := Execute(words, natives, JumpBy(s, 1), op);
            t.Some? ==> FramesOk(words, t.value.frames, t.value.ip) && |t.value.frames| < |s.frames|
  {
    hide TopOk;
  }

  lemma ReadsOk(words: seq<Word>, s: State)
    requires FramesOk(words, s.frames, s.ip)
    ensures ReadsWritten(words, s)
  {
    var op := Fetch(words, s);
    if op.Some? && op.value.GetLocal? && s.frames != [] {
      var ip := s.ip.value;
      var code := words[ip.word].code;
      var d :| Assigned(code, d) && Covers(d[ip.off], s.frames[|s.frames| - 1].locals);
      assert AssignedAt(code, d, ip.off);
    }
  }

  /** No run reads a local before it has a value: for every data stack, all native words, and any number of steps. */
  lemma {:induction false} AssignedFirst(words: seq<Word>, natives: Natives, inits: nat -> Locals, cells: nat, s: State,
                                         k: nat, n: nat)
    requires AllAssigned(words) && FramesOk(words, s.frames, s.ip)
    ensures WritesFirst(words, natives, inits, cells, s, k, n)
    decreases n
  {
    hide AllAssigned, FramesOk, StepOn, ReadsWritten;
    if n > 0 && s.ip.Some? {
      ReadsOk(words, s);
      StepKeeps(words, natives, inits(k), cells, s);
      var t := StepOn(words, natives, inits(k), cells, s);
      if t.Some? {
        AssignedFirst(words, natives, inits, cells, t.value, k + 1, n - 1);
      }
    }
  }

  lemma StartOk(words: seq<Word>, init: Locals, cells: nat, w: nat, stack: seq<int32>)
    requires AllAssigned(words) && w < |words| && words[w].Interpreted?
    ensures var s := StartOn(words, init, cells, w, stack); s.Some? ==> FramesOk(words, s.value.frames, s.value.ip)
  {
    hide AllAssigned, TopOk;
    var s := StartOn(words, init, cells, w, stack);
    if s.Some? {
      EnteredOk(words, s.value.frames[0].locals, w);
      assert s.value.frames[..0] == [];
    }
  }

  /** Generated code of words that write each local before they read it does what the virtual CPU does, whose locals are
      0 at first, whatever the return stack memory holds. */
  lemma AssignedCodeIsCorrect(c: Build, natives: Natives, rp0: nat, w: nat, stack: seq<int32>, rs: seq<uint32>, n: nat)
    requires c.Ok() && AllAssigned(c.words) && w < |c.words| && c.words[w].Interpreted? && rp0 <= |rs|
    ensures |c.t.slots| == |c.words| && Follows(c, natives, rp0, w, stack, rs, UNWRITTEN, DEFAULTS, n)
  {
    hide Build.Ok, AllAssigned, FramesOk, StartOn, RtStart, RtRun, WritesFirst, Follows;
    StartOk(c.words, UNWRITTEN, |rs| - rp0, w, stack);
    var s := StartOn(c.words, UNWRITTEN, |rs| - rp0, w, stack);
    if s.Some? {
      AssignedFirst(c.words, natives, DEFAULTS, |rs| - rp0, s.value, 0, n);
    }
    CodeFollows(c, natives, rp0, w, stack, rs, UNWRITTEN, DEFAULTS, n);
  }

  // ----- the usual words -----

  /** The locals that the first k opcodes write. */
  function WrittenBy(code: seq<Opcode>, k: nat): set<nat>
    requires k <= |code|
  {
    if k == 0 then {} else WrittenAfter(WrittenBy(code, k - 1), code[k - 1])
  }

  lemma {:induction false} WrittenGrows(code: seq<Opcode>, i: nat, k: nat)
    requires i <= k <= |code|
    ensures WrittenBy(code, i) <= WrittenBy(code, k)
    decreases k
  {
    if i < k {
      WrittenGrows(code, i, k - 1);
    }
  }

  /** A word that begins with writing all the locals that it reads, as a list of locals between braces makes it do,
      fulfils the condition, however it jumps afterwards. */
  lemma PrologueAssigned(code: seq<Opcode>, n: nat)
    requires n <= |code| && forall k | 0 <= k < n :: code[k].PutLocal?
    requires forall k | n <= k < |code| :: code[k].GetLocal? ==> code[k].num in WrittenBy(code, n)
    ensures exists d :: Assigned(code, d)
  {
    var d := seq(|code|, k requires 0 <= k < |code| => WrittenBy(code, if k < n then k else n));
    forall k | 0 <= k < |code| ensures AssignedAt(code, d, k) {
      var j := k + 1 + code[k].JumpDisp();
      if 0 <= j < |code| {
        WrittenGrows(code, if j < n then j else n, n);
      }
    }
    assert code != [] ==> d[0] == WrittenBy(code, 0) == {};
    assert Assigned(code, d);
  }
}
