/** `MergeSA` and `AnalyseFlow` (WordInterpreted.cs, lines 127-268): the worklist that annotates each opcode with a
    depth. */
module Analysis {
  import opened Base
  import opened Machine
  import opened Effects
  import opened Flow
  import opened JumpQueue
  import opened Gather

  /** How an analysis ends: Rejected stands for the exceptions that report an error in the word, QueueFull for the
      exception that is thrown when too many jumps are recorded. */
  datatype Verdict = Accepted | Rejected | QueueFull

  // ----- tables that accept a word -----

  /** Table G has an outcome for w, and words whose analysis is under way in T do not depend on w in G. */
  ghost predicate Fits(words: seq<Word>, declared: seq<SType>, G: seq<Info>, T: seq<Info>, w: nat) {
    && |T| == |words| && w < |words| && words[w].Interpreted? && TableOk(words, declared, G) && G[w].flow == 1
    && forall v | 0 <= v < |words| && T[v].flow != 0 && T[v].flow != 1 :: G[v].maxReturnStack > G[w].maxReturnStack
  }

  /** The same while w itself is under way. */
  ghost predicate FitsInside(words: seq<Word>, declared: seq<SType>, G: seq<Info>, T: seq<Info>, w: nat) {
    && |T| == |words| && w < |words| && words[w].Interpreted? && TableOk(words, declared, G) && G[w].flow == 1
    && forall v | 0 <= v < |words| && T[v].flow != 0 && T[v].flow != 1 && v != w ::
       G[v].maxReturnStack > G[w].maxReturnStack
  }

  lemma FitsProgressed(words: seq<Word>, declared: seq<SType>, G: seq<Info>, T: seq<Info>, U: seq<Info>, w: nat)
    requires Progressed(words, T, U) && FitsInside(words, declared, G, T, w)
    ensures FitsInside(words, declared, G, U, w)
  {
    hide TableOk;
  }

  /** The annotations of w in G. */
  ghost predicate CertFor(words: seq<Word>, declared: seq<SType>, G: seq<Info>, w: nat, d: Cert)
    requires w < |words|
  {
    TableOk(words, declared, G) && words[w].Interpreted? && AnalysedWith(words, declared, G, w, d)
  }

  lemma FitsCert(words: seq<Word>, declared: seq<SType>, G: seq<Info>, T: seq<Info>, w: nat) returns (d: Cert)
    requires FitsInside(words, declared, G, T, w)
    ensures CertFor(words, declared, G, w, d)
  {
    assert InfoOk(words, declared, G, w);
    d :| AnalysedWith(words, declared, G, w, d);
  }

  /** A word that is called where w is annotated in G also fits, and agrees with G once it is analysed. */
  lemma CalleeFits(words: seq<Word>, declared: seq<SType>, G: seq<Info>, T: seq<Info>, w: nat, d: Cert, k: nat)
    requires FitsInside(words, declared, G, T, w) && CertFor(words, declared, G, w, d)
    requires k < |words[w].code| == |d.sa| && d.sa[k].Some? && words[w].code[k].Call?
    ensures CallReady(words, G, words[w].code[k])
    ensures var u := words[w].code[k].target.value; words[u].Interpreted? ==> Fits(words, declared, G, T, u)
  {
    hide TableOk;
    CertAt(words, G, words[w].code, d, k);
  }

  lemma CalleeSame(words: seq<Word>, declared: seq<SType>, T: seq<Info>, G: seq<Info>, op: Opcode)
    requires TableOk(words, declared, T) && TableOk(words, declared, G) && CallReady(words, T, op)
    requires CallReady(words, G, op)
    ensures SameCallee(words, T, G, op)
  {
    if op.Call? && words[op.target.value].Interpreted? {
      AnalysisUnique(words, declared, T, G, op.target.value);
    }
    ReadyAgree(words, declared, T, G, op);
  }

  // ----- the state of the worklist -----

  /** done are the opcodes that were visited; todo are those that are annotated and still to be visited. */
  ghost predicate Explored(words: seq<Word>, T: seq<Info>, code: seq<Opcode>, c: Cert, done: set<nat>, todo: seq<nat>) {
    && |T| == |words| && |c.sa| == |code| && code != [] && c.sa[0] == Some(0) && c.maxDepth <= 0
    && (forall k | k in done :: k < |code| && c.sa[k].Some? && OpcodeOk(words, T, code, c, k))
    && (forall i | 0 <= i < |todo| :: todo[i] < |code| && c.sa[todo[i]].Some?)
    && (forall k {:trigger Noted(done, todo, k)} | 0 <= k < |code| && c.sa[k].Some? :: Noted(done, todo, k))
  }

  /** The opcode was visited, or it will be. */
  ghost predicate Noted(done: set<nat>, todo: seq<nat>, k: nat) {
    k in done || k in todo
  }

  /** Where the annotation of each opcode came from. */
  ghost predicate Traced(T: seq<Info>, code: seq<Opcode>, sa: seq<Option<int>>, done: set<nat>, pred: seq<nat>,
                         rank: seq<nat>) {
    && |sa| == |pred| == |rank| == |code|
    && forall k {:trigger TracedAt(T, code, done, pred, rank, k)} | 0 < k < |code| && sa[k].Some? ::
       TracedAt(T, code, done, pred, rank, k)
  }

  ghost predicate TracedAt(T: seq<Info>, code: seq<Opcode>, done: set<nat>, pred: seq<nat>, rank: seq<nat>, k: nat)
    requires k < |code| == |pred| == |rank|
  {
    pred[k] in done && pred[k] < |code| && Edge(T, code, pred[k], k) && rank[pred[k]] < rank[k]
  }

  /** The bounds come from visited opcodes. */
  ghost predicate Attained(words: seq<Word>, T: seq<Info>, code: seq<Opcode>, c: Cert, done: set<nat>)
    requires |T| == |words| && |code| == |c.sa|
  {
    && (c.maxDepth == 0 || exists k ::
        k in done && k < |code| && c.sa[k].Some? && LowPoint(T, code[k], c.sa[k].value) == c.maxDepth)
    && (c.callees == 0 || exists k :: k in done && k < |code| && CalleeReturns(words, T, code[k]) == c.callees)
    && (c.extra == 0 || exists k ::
        k in done && k < |code| && c.sa[k].Some? && DataPoint(words, T, code[k], c.sa[k].value) == c.extra)
    && (c.exit.None? || exists k :: k in done && k < |code| && code[k].Ret?)
  }

  /** What one visit may change: annotations are added, and the bounds are relaxed. */
  ghost predicate Relaxed(c: Cert, d: Cert) {
    && |c.sa| == |d.sa| && (forall i | 0 <= i < |c.sa| :: c.sa[i].Some? ==> d.sa[i] == c.sa[i])
    && d.maxDepth <= c.maxDepth && c.callees <= d.callees && c.extra <= d.extra && (c.exit.Some? ==> d.exit == c.exit)
  }

  lemma Advance(words: seq<Word>, T: seq<Info>, U: seq<Info>, code: seq<Opcode>, c: Cert, d: Cert, done: set<nat>,
                off: nat, rest: seq<nat>, todo: seq<nat>)
    requires Explored(words, T, code, c, done, [off] + rest) && Stable(words, T, U) && Relaxed(c, d)
    requires off < |code| && OpcodeOk(words, U, code, d, off)
    requires forall i | 0 <= i < |todo| :: todo[i] < |code| && d.sa[todo[i]].Some?
    requires forall k | k in rest :: k in todo
    requires forall k | 0 <= k < |code| && d.sa[k].Some? :: c.sa[k].Some? || k in todo
    ensures Explored(words, U, code, d, done + {off}, todo)
  {
    hide OpcodeOk;
    assert ([off] + rest)[0] == off;
    forall k | k in done ensures OpcodeOk(words, U, code, d, k) {
      OpcodeKept(words, T, U, code, c, d, k);
    }
    forall k | 0 <= k < |code| && d.sa[k].Some? ensures Noted(done + {off}, todo, k) {
      assert c.sa[k].Some? ==> Noted(done, [off] + rest, k);
    }
  }

  lemma AttainedKept(words: seq<Word>, T: seq<Info>, U: seq<Info>, code: seq<Opcode>, c: Cert, d: Cert, done: set<nat>,
                     off: nat, rest: seq<nat>)
    requires Explored(words, T, code, c, done, [off] + rest) && Stable(words, T, U) && Relaxed(c, d)
    requires Attained(words, T, code, c, done)
    requires off < |code| && d.sa[off].Some? && CallReady(words, U, code[off])
    requires d.maxDepth == Min(c.maxDepth, LowPoint(U, code[off], d.sa[off].value))
    requires d.callees == Max(c.callees, CalleeReturns(words, U, code[off]))
    requires d.extra == Max(c.extra, DataPoint(words, U, code[off], d.sa[off].value))
    requires d.exit == if code[off].Ret? then d.sa[off] else c.exit
    ensures Attained(words, U, code, d, done + {off})
  {
    hide LowPoint, DataPoint;
    forall k | k in done
      ensures LowPoint(U, code[k], c.sa[k].value) == LowPoint(T, code[k], c.sa[k].value)
      ensures CalleeReturns(words, U, code[k]) == CalleeReturns(words, T, code[k])
      ensures DataPoint(words, U, code[k], c.sa[k].value) == DataPoint(words, T, code[k], c.sa[k].value)
    {
      assert OpcodeOk(words, T, code, c, k);
      ReadyKept(words, T, U, code[k]);
    }
  }

  lemma TracedKept(words: seq<Word>, T: seq<Info>, U: seq<Info>, code: seq<Opcode>, c: Cert, done: set<nat>,
                   todo: seq<nat>, pred: seq<nat>, rank: seq<nat>)
    requires Explored(words, T, code, c, done, todo) && Stable(words, T, U)
    requires Traced(T, code, c.sa, done, pred, rank)
    ensures Traced(U, code, c.sa, done, pred, rank)
  {
    forall k | 0 < k < |code| && c.sa[k].Some? ensures TracedAt(U, code, done, pred, rank, k) {
      assert TracedAt(T, code, done, pred, rank, k);
      assert OpcodeOk(words, T, code, c, pred[k]);
      ReadyKept(words, T, U, code[pred[k]]);
    }
  }

  /** Annotating opcode j from a visited opcode, or finding it annotated. */
  lemma TracedMerge(T: seq<Info>, code: seq<Opcode>, sa: seq<Option<int>>, done: set<nat>, pred: seq<nat>,
                    rank: seq<nat>, off: nat, j: nat, c: int)
    returns (pred': seq<nat>, rank': seq<nat>)
    requires Traced(T, code, sa, done, pred, rank) && j < |code| == |sa| && off in done && off < |code| && sa[off].Some?
    requires forall k | k in done :: k < |code| && sa[k].Some?
    requires Edge(T, code, off, j) && (sa[j].Some? ==> sa[j] == Some(c))
    ensures Traced(T, code, sa[j := Some(c)], done, pred', rank')
  {
    pred', rank' := pred, rank;
    if sa[j].None? {
      pred', rank' := pred[j := off], rank[j := rank[off] + 1];
      forall k | 0 < k < |code| && (k == j || sa[k].Some?) ensures TracedAt(T, code, done, pred', rank', k) {
        if k != j {
          assert TracedAt(T, code, done, pred, rank, k);
        }
      }
    } else {
      assert sa[j := Some(c)] == sa;
    }
  }

  /** Tracing back leads to the start. */
  lemma {:induction false} TracedReachable(T: seq<Info>, code: seq<Opcode>, sa: seq<Option<int>>, done: set<nat>,
                                           pred: seq<nat>, rank: seq<nat>, k: nat)
    requires Traced(T, code, sa, done, pred, rank) && k < |code| && sa[k].Some?
    requires forall i | i in done :: i < |code| && sa[i].Some?
    ensures Reachable(T, code, k)
    decreases rank[k]
  {
    if k == 0 {
      var path: seq<nat> := [0];
      assert Path(T, code, path);
    } else {
      assert TracedAt(T, code, done, pred, rank, k);
      TracedReachable(T, code, sa, done, pred, rank, pred[k]);
      var path: seq<nat> :| Path(T, code, path) && path != [] && path[0] == 0 && path[|path| - 1] == pred[k];
      var longer := path + [k];
      forall i | 0 <= i < |longer| - 1 ensures Edge(T, code, longer[i], longer[i + 1]) {
        if i < |path| - 1 {
          assert Edge(T, code, path[i], path[i + 1]);
        }
      }
      assert Path(T, code, longer);
    }
  }

  // ----- one visit -----

  /** The annotation of one successor. */
  function Annotate(sa: seq<Option<int>>, doIt: bool, j: int, c: int): (r: seq<Option<int>>)
    ensures |r| == |sa|
  {
    if doIt && 0 <= j < |sa| then sa[j := Some(c)] else sa
  }

  /** A successor can be annotated with depth c. */
  predicate Mergeable(sa: seq<Option<int>>, j: int, c: int) {
    0 <= j < |sa| && (sa[j].Some? ==> sa[j] == Some(c))
  }

  /** The annotations after a visit of opcode off, whose depth afterwards is c. */
  function AfterVisit(sa: seq<Option<int>>, off: nat, disp: int, falls: bool, c: int): (r: seq<Option<int>>)
    ensures |r| == |sa|
  {
    Annotate(Annotate(sa, disp != 0, off + 1 + disp, c), falls, off + 1, c)
  }

  /** One visit of the worklist at opcode off, from c to d, with the callee of the opcode already analysed in U. */
  ghost predicate Visit(words: seq<Word>, U: seq<Info>, code: seq<Opcode>, c: Cert, d: Cert, off: nat) {
    && |U| == |words| && off < |code| == |c.sa| && c.sa[off].Some? && CallReady(words, U, code[off])
    && var op, x := code[off], c.sa[off].value;
       var disp, falls, y := op.JumpDisp(), Falls(U, op), x + Delta(U, op);
       && (op.Ret? && c.exit.Some? ==> c.exit.value == x)
       && (disp != 0 ==> Mergeable(c.sa, off + 1 + disp, y))
       && (falls ==> Mergeable(Annotate(c.sa, disp != 0, off + 1 + disp, y), off + 1, y))
       && d == Cert(AfterVisit(c.sa, off, disp, falls, y), if op.Ret? then Some(x) else c.exit,
                    Min(c.maxDepth, LowPoint(U, op, x)), Max(c.callees, CalleeReturns(words, U, op)),
                    Max(c.extra, DataPoint(words, U, op, x)))
  }

  lemma VisitOk(words: seq<Word>, U: seq<Info>, code: seq<Opcode>, c: Cert, d: Cert, off: nat)
    requires Visit(words, U, code, c, d, off)
    ensures Relaxed(c, d) && OpcodeOk(words, U, code, d, off) && d.sa[off] == c.sa[off]
  {
    hide Delta, Falls, LowPoint, DataPoint, CallReady, CalleeReturns;
  }

  /** What is known between two visits of the annotations. */
  ghost predicate Working(words: seq<Word>, T: seq<Info>, code: seq<Opcode>, c: Cert, done: set<nat>, todo: seq<nat>,
                          pred: seq<nat>, rank: seq<nat>) {
    && Explored(words, T, code, c, done, todo)
    && Traced(T, code, c.sa, done, pred, rank)
    && Attained(words, T, code, c, done)
  }

  lemma TracedVisit(words: seq<Word>, U: seq<Info>, code: seq<Opcode>, c: Cert, d: Cert, off: nat, done: set<nat>,
                    pred: seq<nat>, rank: seq<nat>)
    returns (pred': seq<nat>, rank': seq<nat>)
    requires Visit(words, U, code, c, d, off) && Traced(U, code, c.sa, done, pred, rank)
    requires forall k | k in done :: k < |code| && c.sa[k].Some?
    ensures Traced(U, code, d.sa, done + {off}, pred', rank')
  {
    hide Delta, LowPoint, DataPoint, CallReady, CalleeReturns, Traced, Falls;
    pred', rank' := pred, rank;
    var op := code[off];
    var disp, y := op.JumpDisp(), c.sa[off].value + Delta(U, op);
    TracedMore(U, code, c.sa, done, off, pred, rank);
    if disp != 0 {
      pred', rank' := TracedMerge(U, code, c.sa, done + {off}, pred', rank', off, off + 1 + disp, y);
      assert Annotate(c.sa, true, off + 1 + disp, y) == c.sa[off + 1 + disp := Some(y)];
    }
    var sa' := Annotate(c.sa, disp != 0, off + 1 + disp, y);
    if Falls(U, op) {
      pred', rank' := TracedMerge(U, code, sa', done + {off}, pred', rank', off, off + 1, y);
      assert Annotate(sa', true, off + 1, y) == sa'[off + 1 := Some(y)];
    }
  }

  lemma TracedMore(T: seq<Info>, code: seq<Opcode>, sa: seq<Option<int>>, done: set<nat>, off: nat, pred: seq<nat>,
                   rank: seq<nat>)
    requires Traced(T, code, sa, done, pred, rank)
    ensures Traced(T, code, sa, done + {off}, pred, rank)
  {
    forall k | 0 < k < |code| && sa[k].Some? ensures TracedAt(T, code, done + {off}, pred, rank, k) {
      assert TracedAt(T, code, done, pred, rank, k);
    }
  }

  /** Whether the next opcode is annotated only by a visit of opcode off. */
  predicate NewlyFalls(U: seq<Info>, code: seq<Opcode>, c: Cert, off: nat)
    requires off < |code| == |c.sa| && c.sa[off].Some?
  {
    var disp, y := code[off].JumpDisp(), c.sa[off].value + Delta(U, code[off]);
    Falls(U, code[off]) && off + 1 < |code| && Annotate(c.sa, disp != 0, off + 1 + disp, y)[off + 1].None?
  }

  /** The opcodes still to be visited after a visit, when rest were queued before it. */
  function Queue(code: seq<Opcode>, off: nat, rest: seq<nat>, fell: bool): seq<int>
    requires off < |code|
  {
    var disp := code[off].JumpDisp();
    (if fell then [off + 1] else []) + rest + (if disp != 0 then [off + 1 + disp] else [])
  }

  /** What is annotated after a visit. */
  lemma VisitAnnotates(words: seq<Word>, U: seq<Info>, code: seq<Opcode>, c: Cert, d: Cert, off: nat, k: int)
    requires Visit(words, U, code, c, d, off)
    ensures 0 <= k < |code| ==>
              (d.sa[k].Some? <==> c.sa[k].Some? || (code[off].JumpDisp() != 0 && k == off + 1 + code[off].JumpDisp())
                                  || (k == off + 1 && NewlyFalls(U, code, c, off)))
    ensures NewlyFalls(U, code, c, off) ==> off + 1 < |code|
    ensures code[off].JumpDisp() != 0 ==> 0 <= off + 1 + code[off].JumpDisp() < |code|
  {
    hide Delta, Falls, LowPoint, DataPoint, CallReady, CalleeReturns;
  }

  /** They are annotated, and nothing that is annotated only now is missing. */
  lemma QueueOk(words: seq<Word>, U: seq<Info>, code: seq<Opcode>, c: Cert, d: Cert, off: nat, rest: seq<nat>)
    requires Visit(words, U, code, c, d, off)
    requires forall i | 0 <= i < |rest| :: rest[i] < |code| && c.sa[rest[i]].Some?
    ensures var todo := Queue(code, off, rest, NewlyFalls(U, code, c, off));
            && (forall i | 0 <= i < |todo| :: 0 <= todo[i] < |code| && d.sa[todo[i]].Some?)
            && (forall k | k in rest :: k in todo)
            && (forall k | 0 <= k < |code| && d.sa[k].Some? :: c.sa[k].Some? || k in todo)
  {
    hide Delta, Falls, LowPoint, DataPoint, CallReady, CalleeReturns;
    var fell, disp, y := NewlyFalls(U, code, c, off), code[off].JumpDisp(), c.sa[off].value + Delta(U, code[off]);
    var first, last := if fell then [off + 1] else [], if disp != 0 then [off + 1 + disp] else [];
    var todo := Queue(code, off, rest, fell);
    assert todo == first + rest + last;
    forall k | k in todo ensures 0 <= k < |code| && d.sa[k].Some? {
      VisitAnnotates(words, U, code, c, d, off, k);
      assert k in first || k in rest || k in last;
    }
    forall k | 0 <= k < |code| && d.sa[k].Some? ensures c.sa[k].Some? || k in todo {
      VisitAnnotates(words, U, code, c, d, off, k);
      assert k in first ==> k in todo;
      assert k in last ==> k in todo;
    }
  }

  /** A visit keeps what is known; rest are the opcodes that were queued. */
  lemma VisitWorks(words: seq<Word>, T: seq<Info>, U: seq<Info>, code: seq<Opcode>, c: Cert, d: Cert, done: set<nat>,
                   off: nat, rest: seq<nat>, todo: seq<nat>, pred: seq<nat>, rank: seq<nat>)
    returns (pred': seq<nat>, rank': seq<nat>)
    requires Working(words, T, code, c, done, [off] + rest, pred, rank) && Stable(words, T, U)
    requires Visit(words, U, code, c, d, off)
    requires todo == Queue(code, off, rest, NewlyFalls(U, code, c, off))
    ensures Working(words, U, code, d, done + {off}, todo, pred', rank')
  {
    hide Delta, Falls, LowPoint, DataPoint, CallReady, CalleeReturns, OpcodeOk, Traced, AfterVisit, Queue, NewlyFalls;
    assert forall i | 0 <= i < |rest| :: rest[i] == ([off] + rest)[i + 1];
    QueueOk(words, U, code, c, d, off, rest);
    VisitOk(words, U, code, c, d, off);
    Advance(words, T, U, code, c, d, done, off, rest, todo);
    AttainedKept(words, T, U, code, c, d, done, off, rest);
    TracedKept(words, T, U, code, c, done, [off] + rest, pred, rank);
    pred', rank' := TracedVisit(words, U, code, c, d, off, done, pred, rank);
  }

  /** A visit that queues nothing annotates at most the next opcode. */
  lemma VisitShrinks(words: seq<Word>, U: seq<Info>, code: seq<Opcode>, c: Cert, d: Cert, off: nat)
    requires Visit(words, U, code, c, d, off) && code[off].JumpDisp() == 0
    ensures Unannotated(d.sa) == Unannotated(c.sa) - (if NewlyFalls(U, code, c, off) then 1 else 0)
  {
    hide Delta, Falls, LowPoint, DataPoint, CallReady, CalleeReturns, Unannotated;
    if Falls(U, code[off]) {
      UnannotatedMono(c.sa, off + 1, c.sa[off].value + Delta(U, code[off]));
    }
  }

  /** When nothing is left to visit, the annotations are those of the word. */
  lemma WorkDone(words: seq<Word>, T: seq<Info>, code: seq<Opcode>, c: Cert, done: set<nat>, pred: seq<nat>,
                 rank: seq<nat>)
    requires Working(words, T, code, c, done, [], pred, rank)
    ensures CertOk(words, T, code, c)
  {
    hide LowPoint, DataPoint, CalleeReturns;
    forall k | 0 <= k < |code| ensures OpcodeOk(words, T, code, c, k) {
      assert c.sa[k].Some? ==> Noted(done, [], k);
    }
    forall k | 0 <= k < |code| && c.sa[k].Some? ensures Reachable(T, code, k) {
      TracedReachable(T, code, c.sa, done, pred, rank, k);
    }
  }

  // ----- what is annotated is forced -----

  /** The annotations made so far are part of annotations d. */
  ghost predicate Under(c: Cert, d: Cert) {
    && |c.sa| == |d.sa| && (forall k | 0 <= k < |c.sa| && c.sa[k].Some? :: d.sa[k] == c.sa[k])
    && (c.exit.Some? ==> d.exit == c.exit)
  }

  /** The annotations made so far are part of those in any table that has an outcome for w. */
  ghost predicate Forced(words: seq<Word>, declared: seq<SType>, T0: seq<Info>, w: nat, c: Cert)
    requires w < |words|
  {
    forall G, d | FitsInside(words, declared, G, T0, w) && CertFor(words, declared, G, w, d) :: Under(c, d)
  }

  /** What an annotated opcode forces upon its successors. */
  lemma VisitForced(words: seq<Word>, declared: seq<SType>, U: seq<Info>, w: nat, G: seq<Info>, c: Cert, d: Cert,
                    off: nat)
    requires w < |words| == |U| && TableOk(words, declared, U) && CertFor(words, declared, G, w, d) && Under(c, d)
    requires off < |words[w].code| == |c.sa| && c.sa[off].Some? && CallReady(words, U, words[w].code[off])
    ensures var op, x := words[w].code[off], c.sa[off].value; var y := x + Delta(U, op);
            && (op.Ret? ==> d.exit == Some(x))
            && (op.JumpDisp() != 0 ==> DepthAt(d.sa, off + 1 + op.JumpDisp(), y))
            && (Falls(U, op) ==> DepthAt(d.sa, off + 1, y))
  {
    hide TableOk, Delta, Falls, LowPoint, DataPoint, CallReady, CalleeReturns, SameCallee;
    var code := words[w].code;
    CertAt(words, G, code, d, off);
    CalleeSame(words, declared, U, G, code[off]);
    SameCalleeFacts(words, U, G, code[off], 0);
  }

  lemma AnnotateUnder(sa: seq<Option<int>>, doIt: bool, j: int, y: int, ds: seq<Option<int>>)
    requires |sa| == |ds| && forall k | 0 <= k < |sa| && sa[k].Some? :: ds[k] == sa[k]
    requires doIt ==> DepthAt(ds, j, y)
    ensures doIt ==> Mergeable(sa, j, y)
    ensures forall k | 0 <= k < |sa| && Annotate(sa, doIt, j, y)[k].Some? :: ds[k] == Annotate(sa, doIt, j, y)[k]
  {
  }

  /** A visit keeps the annotations forced. */
  lemma StillForced(words: seq<Word>, declared: seq<SType>, T0: seq<Info>, U: seq<Info>, w: nat, c: Cert, d: Cert,
                    off: nat)
    requires w < |words| && words[w].Interpreted? && TableOk(words, declared, U) && Forced(words, declared, T0, w, c)
    requires Visit(words, U, words[w].code, c, d, off)
    ensures Forced(words, declared, T0, w, d)
  {
    hide TableOk, Delta, Falls, LowPoint, DataPoint, CallReady, CalleeReturns, FitsInside, CertFor;
    forall G, e | FitsInside(words, declared, G, T0, w) && CertFor(words, declared, G, w, e) ensures Under(d, e) {
      VisitForced(words, declared, U, w, G, c, e, off);
      var op := words[w].code[off];
      var disp, y := op.JumpDisp(), c.sa[off].value + Delta(U, op);
      AnnotateUnder(c.sa, disp != 0, off + 1 + disp, y, e.sa);
      AnnotateUnder(Annotate(c.sa, disp != 0, off + 1 + disp, y), Falls(U, op), off + 1, y, e.sa);
    }
  }

  /** A conflict at a visit: no table has an outcome for w. */
  lemma Conflict(words: seq<Word>, declared: seq<SType>, T0: seq<Info>, U: seq<Info>, w: nat, c: Cert, off: nat)
    requires w < |words| == |U| && words[w].Interpreted? && TableOk(words, declared, U)
    requires Forced(words, declared, T0, w, c)
    requires off < |words[w].code| == |c.sa| && c.sa[off].Some? && CallReady(words, U, words[w].code[off])
    requires var op, x := words[w].code[off], c.sa[off].value; var y := x + Delta(U, op);
             || (op.Ret? && c.exit.Some? && c.exit.value != x)
             || (op.JumpDisp() != 0 && !Mergeable(c.sa, off + 1 + op.JumpDisp(), y))
             || (Falls(U, op) && !Mergeable(Annotate(c.sa, op.JumpDisp() != 0, off + 1 + op.JumpDisp(), y), off + 1, y))
    ensures forall G :: !FitsInside(words, declared, G, T0, w)
  {
    hide TableOk, Delta, Falls, LowPoint, DataPoint, CallReady, CalleeReturns, FitsInside, CertFor;
    forall G ensures !FitsInside(words, declared, G, T0, w) {
      if FitsInside(words, declared, G, T0, w) {
        var e := FitsCert(words, declared, G, T0, w);
        VisitForced(words, declared, U, w, G, c, e, off);
        var op := words[w].code[off];
        var disp, y := op.JumpDisp(), c.sa[off].value + Delta(U, op);
        AnnotateUnder(c.sa, disp != 0, off + 1 + disp, y, e.sa);
        AnnotateUnder(Annotate(c.sa, disp != 0, off + 1 + disp, y), Falls(U, op), off + 1, y, e.sa);
        assert false;
      }
    }
  }

  /** In table G, the word that op calls has an outcome. */
  ghost predicate Usable(words: seq<Word>, declared: seq<SType>, G: seq<Info>, T: seq<Info>, op: Opcode) {
    && TableOk(words, declared, G) && |T| == |words| && CallReady(words, G, op)
    && (op.Call? && words[op.target.value].Interpreted? ==> Fits(words, declared, G, T, op.target.value))
  }

  lemma ForcedUsable(words: seq<Word>, declared: seq<SType>, T0: seq<Info>, T: seq<Info>, w: nat, G: seq<Info>, c: Cert,
                     off: nat)
    requires Progressed(words, T0, T) && FitsInside(words, declared, G, T0, w) && Forced(words, declared, T0, w, c)
    requires off < |words[w].code| == |c.sa| && c.sa[off].Some?
    ensures Usable(words, declared, G, T, words[w].code[off])
  {
    hide TableOk, CallReady;
    var e := FitsCert(words, declared, G, T0, w);
    assert Under(c, e);
    FitsProgressed(words, declared, G, T0, T, w);
    CertAt(words, G, words[w].code, e, off);
    if words[w].code[off].Call? {
      CalleeFits(words, declared, G, T, w, e, off);
    }
  }

  /** A call that cannot be made ready: no table has an outcome for w. */
  lemma CallConflict(words: seq<Word>, declared: seq<SType>, T0: seq<Info>, T: seq<Info>, w: nat, c: Cert, off: nat)
    requires w < |words| && words[w].Interpreted? && Progressed(words, T0, T) && Forced(words, declared, T0, w, c)
    requires off < |words[w].code| == |c.sa| && c.sa[off].Some?
    requires forall G :: !Usable(words, declared, G, T, words[w].code[off])
    ensures forall G :: !FitsInside(words, declared, G, T0, w)
  {
    hide TableOk, CallReady, Usable, FitsInside, Forced;
    forall G ensures !FitsInside(words, declared, G, T0, w) {
      if FitsInside(words, declared, G, T0, w) {
        ForcedUsable(words, declared, T0, T, w, G, c, off);
      }
    }
  }

  // ----- the queue -----

  /** The queue of an analysed word sufficed: its entries were the jumps met from the first opcode and from the opcodes
      that were annotated first by falling through, and no jumps without end were met. */
  ghost predicate Roomy(code: seq<Opcode>, sa: seq<Option<int>>) {
    && |sa| == |code| && NoLoop(code, sa)
    && exists roots :: Roots(code, sa, roots) && Load(code, roots, |code|) <= |code|
  }

  ghost predicate RoomyWord(words: seq<Word>, declared: seq<SType>, T: seq<Info>, w: nat)
    requires w < |words| == |declared| == |T| && words[w].Interpreted?
  {
    exists c :: AnalysedWith(words, declared, T, w, c) && Roomy(words[w].code, c.sa)
  }

  /** So it did for every word that has been analysed. */
  ghost predicate AllRoomy(words: seq<Word>, declared: seq<SType>, T: seq<Info>) {
    && |T| == |words| == |declared|
    && forall w | 0 <= w < |words| && words[w].Interpreted? && T[w].flow == 1 :: RoomyWord(words, declared, T, w)
  }

  /** The annotation of some word may need a larger queue than it has. */
  ghost predicate Heavy(words: seq<Word>, w: nat) {
    w < |words| && words[w].Interpreted? && FullLoad(words[w].code) > |words[w].code|
  }

  /** So may that of a word that is called, directly or not, from the given ones. */
  ghost predicate HeavyFrom(words: seq<Word>, from: seq<nat>) {
    exists u :: Needed(words, from, u) && Heavy(words, u)
  }

  lemma HeavySelf(words: seq<Word>, w: nat)
    requires Heavy(words, w)
    ensures HeavyFrom(words, [w])
  {
    EntryNeeded(words, [w], 0);
  }

  lemma HeavyCallee(words: seq<Word>, w: nat, off: nat)
    requires w < |words| && words[w].Interpreted? && off < |words[w].code|
    requires words[w].code[off].Call? && words[w].code[off].target.Some?
    requires HeavyFrom(words, [words[w].code[off].target.value])
    ensures HeavyFrom(words, [w])
  {
    hide Heavy;
    var v := words[w].code[off].target.value;
    TargetsAre(words[w].code, v);
    var u :| Needed(words, [v], u) && Heavy(words, u);
    NeededByCaller(words, w, v, u);
  }

  lemma HeavyEntry(words: seq<Word>, entries: seq<nat>, i: nat)
    requires i < |entries| && HeavyFrom(words, [entries[i]])
    ensures HeavyFrom(words, entries)
  {
    hide Heavy;
    var u :| Needed(words, [entries[i]], u) && Heavy(words, u);
    assert Needed(words, entries, u);
  }

  /** What a visit queues and annotates. */
  lemma VisitMoves(words: seq<Word>, U: seq<Info>, code: seq<Opcode>, c: Cert, d: Cert, off: nat, rest: seq<nat>,
                   todo: seq<nat>)
    requires Visit(words, U, code, c, d, off)
    requires var fell, disp := NewlyFalls(U, code, c, off), code[off].JumpDisp();
             todo == (if fell then [off + 1] else []) + (rest + if disp != 0 then [off + 1 + disp] else [])
    ensures Moves(code, c.sa, d.sa, off, rest, todo, NewlyFalls(U, code, c, off))
  {
    hide Delta, LowPoint, DataPoint, CallReady, CalleeReturns;
    forall k | 0 <= k < |code|
      ensures d.sa[k].Some? <==> c.sa[k].Some? || (code[off].JumpDisp() != 0 && k == off + 1 + code[off].JumpDisp())
                                 || (k == off + 1 && NewlyFalls(U, code, c, off))
    {
      VisitAnnotates(words, U, code, c, d, off, k);
    }
    VisitAnnotates(words, U, code, c, d, off, off);
  }

  /** Analysed words keep what is known of their queue. */
  lemma RoomyKept(words: seq<Word>, declared: seq<SType>, T: seq<Info>, U: seq<Info>, w: nat)
    requires w < |words| == |declared| && Stable(words, T, U) && words[w].Interpreted? && T[w] == U[w]
    requires RoomyWord(words, declared, T, w)
    ensures RoomyWord(words, declared, U, w)
  {
    hide CertOk, Roomy;
    var c :| AnalysedWith(words, declared, T, w, c) && Roomy(words[w].code, c.sa);
    CertKept(words, T, U, words[w].code, c);
    assert AnalysedWith(words, declared, U, w, c);
  }

  /** Changing one word that is not analysed keeps the others; c are the annotations of that word if it is analysed
      now. */
  lemma AllRoomyKept(words: seq<Word>, declared: seq<SType>, T: seq<Info>, U: seq<Info>, w: nat)
    requires AllRoomy(words, declared, T) && w < |words| && words[w].Interpreted? && T[w].flow != 1
    requires |U| == |T| && U == T[w := U[w]]
    requires U[w].flow == 1 ==> RoomyWord(words, declared, U, w)
    ensures AllRoomy(words, declared, U)
  {
    hide RoomyWord;
    forall v | 0 <= v < |words| && words[v].Interpreted? && U[v].flow == 1 ensures RoomyWord(words, declared, U, v) {
      if v != w {
        RoomyKept(words, declared, T, U, v);
      }
    }
  }

  /** From the start of word w, an opcode can be reached that is followed by jumps without end. */
  ghost predicate Loops(words: seq<Word>, T: seq<Info>, w: nat) {
    && w < |words| && words[w].Interpreted?
    && exists k :: 0 <= k < |words[w].code| && Reachable(T, words[w].code, k) && Endless(words[w].code, k)
  }

  /** In an analysed word, no opcode that can be reached is followed by jumps without end, in whatever table. */
  lemma NoReachableLoop(words: seq<Word>, declared: seq<SType>, T: seq<Info>, G: seq<Info>, w: nat)
    requires TableOk(words, declared, T) && AllRoomy(words, declared, T) && TableOk(words, declared, G)
    requires w < |words| && words[w].Interpreted? && T[w].flow == 1 && G[w].flow == 1
    ensures !Loops(words, G, w)
  {
    hide Endless, Reachable, CertOk, Jumps;
    assert RoomyWord(words, declared, T, w) && InfoOk(words, declared, G, w);
    var c :| AnalysedWith(words, declared, T, w, c) && Roomy(words[w].code, c.sa);
    var d :| AnalysedWith(words, declared, G, w, d);
    SameAnnotations(words, declared, T, G, w, c, d);
    var code := words[w].code;
    CertSizes(words, T, code, c);
    forall k | 0 <= k < |code| && Reachable(G, code, k) ensures !Endless(code, k) {
      AnnotatedIffReachable(words, G, code, d, k);
      EndlessExactly(code, k);
    }
  }

  /** A word that is analysed in two tables has the same annotations in both. */
  lemma SameAnnotations(words: seq<Word>, declared: seq<SType>, T: seq<Info>, G: seq<Info>, w: nat, c: Cert, d: Cert)
    requires TableOk(words, declared, T) && TableOk(words, declared, G) && w < |words| && words[w].Interpreted?
    requires CertOk(words, T, words[w].code, c) && CertOk(words, G, words[w].code, d)
    ensures c == d
  {
    hide CertOk, TableOk, SameCallee, CallReady, OpcodeOk;
    var code := words[w].code;
    CertSizes(words, T, code, c);
    CertSizes(words, G, code, d);
    Sizes(words, declared, T);
    forall k | 0 <= k < |code| && c.sa[k].Some? && d.sa[k].Some? ensures SameCallee(words, T, G, code[k]) {
      CertAt(words, T, code, c, k);
      CertAt(words, G, code, d, k);
      CalleeSame(words, declared, T, G, code[k]);
    }
    CertUnique(words, T, G, code, c, d);
  }

  // ----- the state of the worklist, as a whole -----

  datatype Trail = Trail(done: set<nat>, pred: seq<nat>, rank: seq<nat>, roots: set<nat>)

  /** Everything that is known between two visits: todo are the opcode that is visited next, and the queue. */
  ghost predicate OnTrack(words: seq<Word>, declared: seq<SType>, T0: seq<Info>, T: seq<Info>, w: nat, c: Cert,
                          todo: seq<nat>, trail: Trail, tY: nat)
    requires w < |words| && words[w].Interpreted?
  {
    && Working(words, T, words[w].code, c, trail.done, todo, trail.pred, trail.rank)
    && Forced(words, declared, T0, w, c)
    && Ledger(words[w].code, c.sa, trail.roots, todo, tY)
  }

  // ----- the methods -----

  /** Number of words whose analysis has not started. */
  function Unstarted(T: seq<Info>): nat {
    if T == [] then 0 else (if T[0].flow == 0 then 1 else 0) + Unstarted(T[1..])
  }

  lemma {:induction false} UnstartedMono(T: seq<Info>, U: seq<Info>)
    requires |T| == |U| && forall w | 0 <= w < |T| :: U[w].flow == 0 ==> T[w].flow == 0
    ensures Unstarted(U) <= Unstarted(T)
    ensures (exists w :: 0 <= w < |T| && U[w].flow != 0 && T[w].flow == 0) ==> Unstarted(U) < Unstarted(T)
    decreases |T|
  {
    if T != [] {
      UnstartedMono(T[1..], U[1..]);
      if w :| 0 <= w < |T| && U[w].flow != 0 && T[w].flow == 0 {
        if w > 0 {
          assert U[1..][w - 1].flow != 0 && T[1..][w - 1].flow == 0;
        }
      }
    }
  }

  function Unannotated(sa: seq<Option<int>>): nat {
    if sa == [] then 0 else (if sa[0].None? then 1 else 0) + Unannotated(sa[1..])
  }

  lemma {:induction false} UnannotatedMono(sa: seq<Option<int>>, j: nat, c: int)
    requires j < |sa|
    ensures Unannotated(sa[j := Some(c)]) == Unannotated(sa) - (if sa[j].None? then 1 else 0)
    decreases |sa|
  {
    if j > 0 {
      assert sa[j := Some(c)][1..] == sa[1..][j - 1 := Some(c)];
      UnannotatedMono(sa[1..], j - 1, c);
    }
  }

  /** Changing one word that is not analysed keeps the others. */
  lemma OthersKept(words: seq<Word>, declared: seq<SType>, T: seq<Info>, U: seq<Info>, w: nat)
    requires TableOk(words, declared, T) && w < |words| && words[w].Interpreted? && T[w].flow != 1
    requires |U| == |T| && U == T[w := U[w]]
    requires InfoOk(words, declared, U, w)
    ensures TableOk(words, declared, U)
  {
    forall v | 0 <= v < |words| ensures InfoOk(words, declared, U, v) {
      assert InfoOk(words, declared, T, v);
      if v != w {
        TableKept(words, declared, T, U, v);
      }
    }
  }

  /** Recording the result of the analysis of a word. */
  lemma Concluded(words: seq<Word>, declared: seq<SType>, T: seq<Info>, U: seq<Info>, w: nat, c: Cert)
    requires TableOk(words, declared, T) && w < |words| && words[w].Interpreted? && T[w].flow == 2
    requires CertOk(words, T, words[w].code, c)
    requires declared[w].IsKnown() ==> Computed(c).IsSubOf(declared[w])
    requires U == T[w := Info(1, if declared[w].IsKnown() then declared[w] else Computed(c),
                              1 + words[w].numLocals + c.callees, c.extra)]
    ensures TableOk(words, declared, U)
  {
    CertKept(words, T, U, words[w].code, c);
    assert AnalysedWith(words, declared, U, w, c);
    OthersKept(words, declared, T, U, w);
  }

  lemma ConcludedRoomy(words: seq<Word>, declared: seq<SType>, T: seq<Info>, U: seq<Info>, w: nat, c: Cert)
    requires TableOk(words, declared, T) && w < |words| && words[w].Interpreted? && T[w].flow == 2
    requires CertOk(words, T, words[w].code, c)
    requires declared[w].IsKnown() ==> Computed(c).IsSubOf(declared[w])
    requires U == T[w := Info(1, if declared[w].IsKnown() then declared[w] else Computed(c),
                              1 + words[w].numLocals + c.callees, c.extra)]
    requires Roomy(words[w].code, c.sa)
    ensures |U| == |words| == |declared| && RoomyWord(words, declared, U, w)
    ensures AllRoomy(words, declared, T) ==> AllRoomy(words, declared, U)
  {
    hide CertOk, Roomy;
    CertKept(words, T, U, words[w].code, c);
    assert AnalysedWith(words, declared, U, w, c);
    if AllRoomy(words, declared, T) {
      AllRoomyKept(words, declared, T, U, w);
    }
  }

  /** `MergeSA`: whether opcode j was annotated only now; None for a mismatch, or an index out of range. */
  method MergeSA(sa: array<Option<int>>, j: int, c: int) returns (r: Option<bool>)
    modifies sa
    ensures r.None? <==> !(0 <= j < sa.Length) || (old(sa[..])[j].Some? && old(sa[..])[j] != Some(c))
    ensures r.None? ==> sa[..] == old(sa[..])
    ensures r.Some? ==> sa[..] == old(sa[..])[j := Some(c)] && r.value == old(sa[..])[j].None?
  {
    if !(0 <= j < sa.Length) {
      return None;
    }
    if sa[j].None? {
      sa[j] := Some(c);
      return Some(true);
    } else if sa[j] != Some(c) {
      return None;
    } else {
      assert sa[..][j := Some(c)] == sa[..];
      return Some(false);
    }
  }

  /** The end of a visit: the jump target is queued, both successors are annotated; fell tells whether the next opcode
      was annotated only now. */
  method Follow(off: nat, disp: int, falls: bool, c: int, sa: array<Option<int>>, toExplore: array<nat>, tY: nat)
    returns (v: Verdict, tY': nat, fell: bool)
    requires sa.Length == toExplore.Length && tY <= toExplore.Length
    modifies sa, toExplore
    ensures v.QueueFull? <==> disp != 0 && tY == toExplore.Length
    ensures !v.QueueFull? ==> (v.Rejected? <==>
              (disp != 0 && !Mergeable(old(sa[..]), off + 1 + disp, c))
              || (falls && !Mergeable(Annotate(old(sa[..]), disp != 0, off + 1 + disp, c), off + 1, c)))
    ensures v.Accepted? ==> tY' == tY + (if disp != 0 then 1 else 0) <= toExplore.Length
    ensures v.Accepted? ==> toExplore[..tY'] == old(toExplore[..tY]) + if disp != 0 then [off + 1 + disp] else []
    ensures v.Accepted? ==> sa[..] == AfterVisit(old(sa[..]), off, disp, falls, c)
    ensures v.Accepted? ==> fell == (falls && Annotate(old(sa[..]), disp != 0, off + 1 + disp, c)[off + 1].None?)
  {
    v, tY', fell := Accepted, tY, false;
    if disp != 0 {
      var j := off + 1 + disp;
      if tY == toExplore.Length {
        return QueueFull, tY, false;
      }
      var m := MergeSA(sa, j, c);
      if m.None? {
        return Rejected, tY, false;
      }
      toExplore[tY] := j;
      tY' := tY + 1;
    }
    if falls {
      var m := MergeSA(sa, off + 1, c);
      if m.None? {
        return Rejected, tY', false;
      }
      fell := m.value;
    }
  }

  /** The part of a visit that concerns a call: the callee is analysed first, and its effect must be known. */
  method PrepareCall(words: seq<Word>, declared: seq<SType>, info: array<Info>, op: Opcode) returns (v: Verdict)
    requires TableOk(words, declared, info[..])
    modifies info
    ensures v.Accepted? ==> TableOk(words, declared, info[..]) && Progressed(words, old(info[..]), info[..])
    ensures v.Accepted? ==> CallReady(words, info[..], op)
    ensures v.Rejected? ==> forall G :: !Usable(words, declared, G, old(info[..]), op)
    ensures v.Accepted? && AllRoomy(words, declared, old(info[..])) ==> AllRoomy(words, declared, info[..])
    ensures v.QueueFull? ==> op.Call? && op.target.Some? && HeavyFrom(words, [op.target.value])
    decreases Unstarted(info[..]), 1
  {
    if !op.Call? {
      return Accepted;
    }
    if op.target.None? || op.target.value >= |words| {
      return Rejected;
    }
    var u := op.target.value;
    ghost var T := info[..];
    if words[u].Interpreted? {
      v := AnalyseFlow(words, declared, info, u);
      if v != Accepted {
        return v;
      }
    }
    if !info[u].effect.IsKnown() {
      forall G ensures !Usable(words, declared, G, T, op) {
        UnknownEffect(words, declared, info[..], G, T, op);
      }
      return Rejected;
    }
    return Accepted;
  }

  lemma UnknownEffect(words: seq<Word>, declared: seq<SType>, U: seq<Info>, G: seq<Info>, T: seq<Info>, op: Opcode)
    requires TableOk(words, declared, U) && op.Call? && op.target.Some? && op.target.value < |words|
    requires words[op.target.value].Interpreted? ==> U[op.target.value].flow == 1
    requires !U[op.target.value].effect.IsKnown()
    ensures !Usable(words, declared, G, T, op)
  {
    var u := op.target.value;
    if Usable(words, declared, G, T, op) {
      assert InfoOk(words, declared, U, u) && InfoOk(words, declared, G, u);
      if words[u].Interpreted? {
        AnalysisUnique(words, declared, U, G, u);
      }
      assert false;
    }
  }

  /** One round of the worklist loop, at opcode off of word w; T0 is the table from which w is explored. */
  method VisitOpcode(words: seq<Word>, declared: seq<SType>, info: array<Info>, w: nat, ghost T0: seq<Info>, off: nat,
                     sa: array<Option<int>>, toExplore: array<nat>, tY: nat, c: Cert)
    returns (v: Verdict, d: Cert, tY': nat, fell: bool)
    requires w < |words| && words[w].Interpreted? && TableOk(words, declared, info[..])
    requires Progressed(words, T0, info[..])
    requires tY <= toExplore.Length == sa.Length == |words[w].code| && off < sa.Length && sa[off].Some?
    requires c.sa == sa[..] && Forced(words, declared, T0, w, c)
    modifies info, sa, toExplore
    ensures v.Accepted? ==> TableOk(words, declared, info[..]) && Progressed(words, old(info[..]), info[..])
    ensures v.Accepted? ==> Visit(words, info[..], words[w].code, c, d, off) && d.sa == sa[..]
    ensures v.Accepted? ==> fell == NewlyFalls(info[..], words[w].code, c, off)
    ensures var disp := words[w].code[off].JumpDisp();
            v.Accepted? ==> tY' == tY + (if disp != 0 then 1 else 0) <= toExplore.Length
                            && toExplore[..tY'] == old(toExplore[..tY]) + if disp != 0 then [off + 1 + disp] else []
    ensures v.Rejected? ==> forall G :: !FitsInside(words, declared, G, T0, w)
    ensures v.Accepted? && AllRoomy(words, declared, old(info[..])) ==> AllRoomy(words, declared, info[..])
    ensures v.QueueFull? ==> HeavyFrom(words, [w]) || (words[w].code[off].JumpDisp() != 0 && tY == toExplore.Length)
    decreases Unstarted(info[..]), 2
  {
    hide AllRoomy, HeavyFrom, TableOk, Forced, FitsInside, Unstarted, Progressed, AfterVisit, Annotate, Mergeable,
         CallReady, Falls, InfoOk;
    d, tY', fell := c, tY, false;
    ghost var T := info[..];
    Sizes(words, declared, T);
    var op, x := words[w].code[off], sa[off].value;
    v := PrepareCall(words, declared, info, op);
    if v != Accepted {
      if v == Rejected {
        CallConflict(words, declared, T0, T, w, c, off);
      } else {
        HeavyCallee(words, w, off);
      }
      return;
    }
    ghost var U := info[..];
    ProgressedTwice(words, T0, T, U);
    var exitSA, maxDepth, mrs, mds := c.exit, c.maxDepth, c.callees, c.extra;
    if op.Call? {
      maxDepth, mrs, mds := CallBounds(words, info, op, x, maxDepth, mrs, mds);
    } else if op.Ret? {
      if exitSA.None? {
        exitSA := Some(x);
      } else if exitSA != Some(x) {
        Conflict(words, declared, T0, U, w, c, off);
        return Rejected, c, tY, false;
      }
    } else {
      mds := Max(mds, x + op.StackAction());
    }
    var y := x + Delta(info[..], op);
    maxDepth := Min(maxDepth, y);
    assert maxDepth == Min(c.maxDepth, LowPoint(U, op, x)) && mrs == Max(c.callees, CalleeReturns(words, U, op));
    assert mds == Max(c.extra, DataPoint(words, U, op, x));
    v, tY', fell := Follow(off, op.JumpDisp(), Falls(info[..], op), y, sa, toExplore, tY);
    if v == Rejected {
      Conflict(words, declared, T0, U, w, c, off);
    }
    d := Cert(sa[..], exitSA, maxDepth, mrs, mds);
    if v == Accepted {
      assert Visit(words, U, words[w].code, c, d, off);
      FallsInRange(U, words[w].code, c, d, off, words);
    }
  }

  /** What a call changes in the bounds. */
  method CallBounds(words: seq<Word>, info: array<Info>, op: Opcode, x: int, maxDepth: int, mrs: nat, mds: nat)
    returns (maxDepth': int, mrs': nat, mds': nat)
    requires |info[..]| == |words| && op.Call? && CallReady(words, info[..], op)
    ensures maxDepth' == Min(maxDepth, x - CalleeEffect(info[..], op).din)
    ensures mrs' == Max(mrs, CalleeReturns(words, info[..], op))
    ensures mds' == Max(mds, DataPoint(words, info[..], op, x))
  {
    var u := op.target.value;
    mds' := Max(mds, x + if words[u].Interpreted? then info[u].maxDataStack else NativeData(info[u].effect));
    mrs' := Max(mrs, if words[u].Interpreted? then info[u].maxReturnStack else 0);
    maxDepth' := Min(maxDepth, x - info[u].effect.din);
  }

  lemma FallsInRange(U: seq<Info>, code: seq<Opcode>, c: Cert, d: Cert, off: nat, words: seq<Word>)
    requires Visit(words, U, code, c, d, off)
    ensures Falls(U, code[off]) ==> off + 1 < |code|
  {
    hide Delta, Falls, LowPoint, DataPoint, CallReady, CalleeReturns;
  }

  /** The worklist loop for the opcodes of word w. */
  method ExploreWord(words: seq<Word>, declared: seq<SType>, info: array<Info>, w: nat) returns (v: Verdict, c: Cert)
    requires TableOk(words, declared, info[..]) && w < |words| && words[w].Interpreted? && info[w].flow == 2
    modifies info
    ensures v.Accepted? ==> TableOk(words, declared, info[..]) && Progressed(words, old(info[..]), info[..])
    ensures v.Accepted? ==> CertOk(words, info[..], words[w].code, c) && Forced(words, declared, old(info[..]), w, c)
    ensures v.Accepted? ==> Roomy(words[w].code, c.sa)
    ensures v.Accepted? && AllRoomy(words, declared, old(info[..])) ==> AllRoomy(words, declared, info[..])
    ensures v.Rejected? ==> forall G :: !FitsInside(words, declared, G, old(info[..]), w)
    ensures v.QueueFull? ==> HeavyFrom(words, [w])
    decreases Unstarted(info[..]), 3
  {
    hide *;
    c := Cert([], None, 0, 0, 0);
    ghost var T0 := info[..];
    Sizes(words, declared, T0);
    var code := words[w].code;
    var n := |code|;
    if n == 0 {
      NoEmptyCode(words, declared, T0, w);
      return Rejected, c;
    }
    var sa := new Option<int>[n](_ => None);
    sa[0] := Some(0);
    var toExplore := new nat[n](_ => 0);
    var tX: nat, tY: nat, off: nat := 0, 0, 0;
    c := Cert(sa[..], None, 0, 0, 0);
    ghost var todo: seq<nat> := [];
    ghost var trail := BeginWork(words, declared, T0, w, sa[..]);
    assert [off] + todo == [0];
    while true
      invariant TableOk(words, declared, info[..]) && Progressed(words, T0, info[..])
      invariant sa.Length == toExplore.Length == n && 0 <= tX <= tY <= n && c.sa == sa[..] && todo == toExplore[tX..tY]
      invariant OnTrack(words, declared, T0, info[..], w, c, [off] + todo, trail, tY)
      invariant AllRoomy(words, declared, T0) ==> AllRoomy(words, declared, info[..])
      decreases n - tY, Unannotated(c.sa), tY - tX
    {
      ghost var T := info[..];
      HeadOk(words, declared, T0, T, w, c, off, todo, trail, tY);
      StartedMore(words, T0, T);
      var d, fell;
      ghost var tY0 := tY;
      v, d, tY, fell := VisitOpcode(words, declared, info, w, T0, off, sa, toExplore, tY, c);
      if v != Accepted {
        if v == QueueFull {
          QueueIsFull(words, declared, T0, T, w, c, off, todo, trail, tY0);
        }
        return;
      }
      ghost var U, queued := info[..], toExplore[tX..tY];
      ProgressedTwice(words, T0, T, U);
      ghost var next;
      next, trail := Visited(words, declared, T0, T, U, w, c, d, off, todo, queued, fell, trail, tY0, tY);
      if !fell && tX == tY {
        WorkEnds(words, declared, T0, U, w, d, trail, tY);
        return Accepted, d;
      }
      if fell {
        off := off + 1;
      } else {
        off := toExplore[tX];
        tX := tX + 1;
      }
      assert [off] + toExplore[tX..tY] == next;
      c, todo := d, toExplore[tX..tY];
    }
  }

  lemma QueueIsFull(words: seq<Word>, declared: seq<SType>, T0: seq<Info>, T: seq<Info>, w: nat, c: Cert, off: nat,
                    rest: seq<nat>, trail: Trail, tY: nat)
    requires w < |words| && words[w].Interpreted? && off < |words[w].code|
    requires OnTrack(words, declared, T0, T, w, c, [off] + rest, trail, tY)
    requires HeavyFrom(words, [w]) || (words[w].code[off].JumpDisp() != 0 && tY == |words[w].code|)
    ensures HeavyFrom(words, [w])
  {
    hide HeavyFrom, Ledger, Working, Forced;
    if words[w].code[off].JumpDisp() != 0 && tY == |words[w].code| {
      LedgerFull(words[w].code, c.sa, trail.roots, off, rest);
      HeavySelf(words, w);
    }
  }

  /** When nothing is left to visit, the annotations are those of the word, and the queue sufficed. */
  lemma WorkEnds(words: seq<Word>, declared: seq<SType>, T0: seq<Info>, T: seq<Info>, w: nat, c: Cert, trail: Trail,
                 tY: nat)
    requires w < |words| && words[w].Interpreted? && OnTrack(words, declared, T0, T, w, c, [], trail, tY)
    requires tY <= |words[w].code|
    ensures CertOk(words, T, words[w].code, c) && Forced(words, declared, T0, w, c) && Roomy(words[w].code, c.sa)
  {
    hide Working, Forced;
    WorkDone(words, T, words[w].code, c, trail.done, trail.pred, trail.rank);
    LedgerDone(words[w].code, c.sa, trail.roots, tY);
  }

  /** What is known after a visit. */
  lemma Visited(words: seq<Word>, declared: seq<SType>, T0: seq<Info>, T: seq<Info>, U: seq<Info>, w: nat, c: Cert,
                d: Cert, off: nat, rest: seq<nat>, queue: seq<nat>, fell: bool, trail: Trail, tY: nat, tY': nat)
    returns (todo: seq<nat>, trail': Trail)
    requires w < |words| && words[w].Interpreted? && TableOk(words, declared, U) && Stable(words, T, U)
    requires OnTrack(words, declared, T0, T, w, c, [off] + rest, trail, tY)
    requires off < |words[w].code| == |c.sa| && c.sa[off].Some?
    requires Visit(words, U, words[w].code, c, d, off) && fell == NewlyFalls(U, words[w].code, c, off)
    requires var disp := words[w].code[off].JumpDisp();
             queue == rest + (if disp != 0 then [off + 1 + disp] else []) && tY' == tY + if disp != 0 then 1 else 0
    ensures todo == (if fell then [off + 1] else []) + queue
    ensures OnTrack(words, declared, T0, U, w, d, todo, trail', tY')
    ensures words[w].code[off].JumpDisp() == 0 ==> Unannotated(d.sa) == Unannotated(c.sa) - (if fell then 1 else 0)
  {
    hide TableOk, Forced, Working, Stable, NewlyFalls, Visit, Unannotated, Ledger, Moves;
    var code := words[w].code;
    todo := (if fell then [off + 1] else []) + queue;
    assert todo == Queue(code, off, rest, fell);
    StillForced(words, declared, T0, U, w, c, d, off);
    var pred, rank := VisitWorks(words, T, U, code, c, d, trail.done, off, rest, todo, trail.pred, trail.rank);
    VisitMoves(words, U, code, c, d, off, rest, todo);
    LedgerKept(code, c.sa, d.sa, trail.roots, off, rest, todo, tY, fell);
    trail' := Trail(trail.done + {off}, pred, rank, MoreRoots(trail.roots, off, fell));
    if code[off].JumpDisp() == 0 {
      VisitShrinks(words, U, code, c, d, off);
    }
  }

  lemma Sizes(words: seq<Word>, declared: seq<SType>, T: seq<Info>)
    requires TableOk(words, declared, T)
    ensures |T| == |words| == |declared| && Progressed(words, T, T)
  {
  }

  lemma StartedMore(words: seq<Word>, T: seq<Info>, U: seq<Info>)
    requires Progressed(words, T, U)
    ensures Unstarted(U) <= Unstarted(T)
  {
    UnstartedMono(T, U);
  }

  lemma ProgressedTwice(words: seq<Word>, T0: seq<Info>, T: seq<Info>, U: seq<Info>)
    requires Progressed(words, T0, T) && Progressed(words, T, U)
    ensures Progressed(words, T0, U) && Stable(words, T, U) && |U| == |words|
  {
  }

  lemma HeadOk(words: seq<Word>, declared: seq<SType>, T0: seq<Info>, T: seq<Info>, w: nat, c: Cert, off: nat,
               queue: seq<nat>, trail: Trail, tY: nat)
    requires w < |words| && words[w].Interpreted? && OnTrack(words, declared, T0, T, w, c, [off] + queue, trail, tY)
    ensures off < |words[w].code| == |c.sa| && c.sa[off].Some? && |T| == |words| && Forced(words, declared, T0, w, c)
  {
    assert ([off] + queue)[0] == off;
  }

  lemma NoEmptyCode(words: seq<Word>, declared: seq<SType>, T: seq<Info>, w: nat)
    requires w < |words| && words[w].Interpreted? && words[w].code == []
    ensures forall G :: !FitsInside(words, declared, G, T, w)
  {
    forall G ensures !FitsInside(words, declared, G, T, w) {
      if FitsInside(words, declared, G, T, w) {
        var d := FitsCert(words, declared, G, T, w);
        assert false;
      }
    }
  }

  lemma BeginWork(words: seq<Word>, declared: seq<SType>, T: seq<Info>, w: nat, sa: seq<Option<int>>)
    returns (trail: Trail)
    requires w < |words| == |T| && words[w].Interpreted?
    requires |sa| == |words[w].code| && sa != [] && sa[0] == Some(0) && forall k | 0 < k < |sa| :: sa[k].None?
    ensures OnTrack(words, declared, T, T, w, Cert(sa, None, 0, 0, 0), [0], trail, 0)
  {
    hide Ledger;
    var zeros := seq(|sa|, _ => 0);
    trail := Trail({}, zeros, zeros, {0});
    assert [0][0] == 0;
    LedgerStart(words[w].code, sa);
    forall G, d | FitsInside(words, declared, G, T, w) && CertFor(words, declared, G, w, d)
      ensures Under(Cert(sa, None, 0, 0, 0), d) {
      CertSizes(words, G, words[w].code, d);
    }
  }

  /** `AnalyseFlow` of an interpreted word. An accepted word has annotations, whose effect obeys the declaration. A word
      is rejected only when no table has an outcome for it. */
  method AnalyseFlow(words: seq<Word>, declared: seq<SType>, info: array<Info>, w: nat) returns (v: Verdict)
    requires TableOk(words, declared, info[..]) && w < |words| && words[w].Interpreted?
    modifies info
    ensures v.Accepted? ==>
            TableOk(words, declared, info[..]) && Progressed(words, old(info[..]), info[..]) && info[w].flow == 1
    ensures v.Accepted? && old(info[..])[w].flow == 0 ==> RoomyWord(words, declared, info[..], w)
    ensures v.Accepted? && AllRoomy(words, declared, old(info[..])) ==> AllRoomy(words, declared, info[..])
    ensures v.Rejected? ==> forall G :: !Fits(words, declared, G, old(info[..]), w)
    ensures v.QueueFull? ==> HeavyFrom(words, [w])
    decreases Unstarted(info[..]), 0
  {
    hide AllRoomy, Roomy, RoomyWord, HeavyFrom, CertOk, Forced, FitsInside;
    if info[w].flow == 1 {
      return Accepted;
    }
    if info[w].flow != 0 {
      return Rejected;
    }
    ghost var T0 := info[..];
    info[w] := info[w].(flow := 2);
    ghost var S := info[..];
    UnstartedMono(T0, S);
    assert InfoOk(words, declared, T0, w);
    OthersKept(words, declared, T0, S, w);
    if AllRoomy(words, declared, T0) {
      AllRoomyKept(words, declared, T0, S, w);
    }
    var c;
    v, c := ExploreWord(words, declared, info, w);
    if v != Accepted {
      FitsMarked(words, declared, T0, S, w);
      return;
    }
    ghost var T := info[..];
    var effect := Computed(c);
    if info[w].effect.IsKnown() {
      if !effect.IsSubOf(info[w].effect) {
        NotDeclared(words, declared, T0, S, T, w, c);
        return Rejected;
      }
      effect := info[w].effect;
    }
    info[w] := Info(1, effect, 1 + words[w].numLocals + c.callees, c.extra);
    Concluded(words, declared, T, info[..], w, c);
    ConcludedRoomy(words, declared, T, info[..], w, c);
  }

  /** Marking w as under way. */
  lemma FitsMarked(words: seq<Word>, declared: seq<SType>, T0: seq<Info>, S: seq<Info>, w: nat)
    requires |T0| == |words| && w < |words| && S == T0[w := T0[w].(flow := 2)]
    ensures forall G | Fits(words, declared, G, T0, w) :: FitsInside(words, declared, G, S, w)
  {
  }

  /** The computed effect is not within the declared one: no table has an outcome for w. */
  lemma NotDeclared(words: seq<Word>, declared: seq<SType>, T0: seq<Info>, S: seq<Info>, T: seq<Info>, w: nat, c: Cert)
    requires |T0| == |words| && w < |words| && words[w].Interpreted? && T0[w].flow == 0
    requires S == T0[w := T0[w].(flow := 2)]
    requires TableOk(words, declared, T) && CertOk(words, T, words[w].code, c) && Forced(words, declared, S, w, c)
    requires declared[w].IsKnown() && !Computed(c).IsSubOf(declared[w])
    ensures forall G :: !Fits(words, declared, G, T0, w)
  {
    forall G ensures !Fits(words, declared, G, T0, w) {
      if Fits(words, declared, G, T0, w) {
        assert FitsInside(words, declared, G, S, w);
        var d := FitsCert(words, declared, G, S, w);
        SameAnnotations(words, declared, T, G, w, c, d);
        assert false;
      }
    }
  }

  // ----- all entry points -----

  /** A table in which every entry point has an outcome within the limits of both stacks. */
  ghost predicate Acceptable(words: seq<Word>, declared: seq<SType>, G: seq<Info>, entries: seq<nat>, dsLimit: int,
                             rsLimit: int) {
    && TableOk(words, declared, G)
    && forall i | 0 <= i < |entries| :: entries[i] < |words| && EntryOk(words, G, entries[i], dsLimit, rsLimit)
  }

  predicate EntryOk(words: seq<Word>, G: seq<Info>, e: nat, dsLimit: int, rsLimit: int)
    requires e < |words|
  {
    words[e].Interpreted? ==>
      e < |G| && G[e].flow == 1 && G[e].maxDataStack <= dsLimit && G[e].maxReturnStack <= rsLimit
  }

  /** The flow analysis of all entry points, with the limits on the stacks. */
  method AnalyseEntries(words: seq<Word>, declared: seq<SType>, info: array<Info>, entries: seq<nat>, dsLimit: nat,
                        rsLimit: nat) returns (v: Verdict)
    requires |words| == |declared| && Initial(declared, info[..])
    requires forall i | 0 <= i < |entries| :: entries[i] < |words|
    modifies info
    ensures v.Accepted? ==> Acceptable(words, declared, info[..], entries, dsLimit, rsLimit)
    ensures v.Accepted? ==> AllRoomy(words, declared, info[..])
    ensures v.Rejected? ==> forall G :: !Acceptable(words, declared, G, entries, dsLimit, rsLimit)
    ensures v.QueueFull? ==> HeavyFrom(words, entries)
    ensures (exists G :: Acceptable(words, declared, G, entries, dsLimit, rsLimit) && SomeLoops(words, G, entries)) ==>
            v.QueueFull?
  {
    hide TableOk, AllRoomy, HeavyFrom, Fits, SomeLoops;
    ghost var T0 := info[..];
    InitialOk(words, declared, T0);
    Sizes(words, declared, T0);
    var i := 0;
    while i < |entries|
      invariant 0 <= i <= |entries| && TableOk(words, declared, info[..]) && Progressed(words, T0, info[..])
      invariant AllRoomy(words, declared, info[..])
      invariant forall j | 0 <= j < i :: EntryOk(words, info[..], entries[j], dsLimit, rsLimit)
    {
      var e := entries[i];
      if words[e].Interpreted? {
        ghost var T := info[..];
        v := AnalyseFlow(words, declared, info, e);
        if v == Rejected {
          forall G ensures !Acceptable(words, declared, G, entries, dsLimit, rsLimit) {
            NotAcceptable(words, declared, T, G, entries, dsLimit, rsLimit, i);
          }
        }
        if v == QueueFull {
          HeavyEntry(words, entries, i);
        }
        if v != Accepted {
          return;
        }
        ProgressedTwice(words, T0, T, info[..]);
        if info[e].maxDataStack > dsLimit || info[e].maxReturnStack > rsLimit {
          forall G ensures !Acceptable(words, declared, G, entries, dsLimit, rsLimit) {
            TooDeep(words, declared, info[..], G, entries, dsLimit, rsLimit, i);
          }
          return Rejected;
        }
      }
      i := i + 1;
    }
    forall G | Acceptable(words, declared, G, entries, dsLimit, rsLimit) ensures !SomeLoops(words, G, entries) {
      NoneLoops(words, declared, info[..], G, entries, dsLimit, rsLimit);
    }
    return Accepted;
  }

  /** Some entry point reaches jumps without end. */
  ghost predicate SomeLoops(words: seq<Word>, G: seq<Info>, entries: seq<nat>) {
    exists i :: 0 <= i < |entries| && Loops(words, G, entries[i])
  }

  lemma NoneLoops(words: seq<Word>, declared: seq<SType>, T: seq<Info>, G: seq<Info>, entries: seq<nat>, dsLimit: nat,
                  rsLimit: nat)
    requires Acceptable(words, declared, T, entries, dsLimit, rsLimit) && AllRoomy(words, declared, T)
    requires Acceptable(words, declared, G, entries, dsLimit, rsLimit)
    ensures !SomeLoops(words, G, entries)
  {
    hide TableOk, AllRoomy, Loops;
    forall i | 0 <= i < |entries| ensures !Loops(words, G, entries[i]) {
      assert EntryOk(words, T, entries[i], dsLimit, rsLimit) && EntryOk(words, G, entries[i], dsLimit, rsLimit);
      if words[entries[i]].Interpreted? {
        NoReachableLoop(words, declared, T, G, entries[i]);
      } else {
        NativeNeverLoops(words, G, entries[i]);
      }
    }
  }

  lemma NativeNeverLoops(words: seq<Word>, G: seq<Info>, w: nat)
    requires w < |words| && words[w].Native?
    ensures !Loops(words, G, w)
  {
  }

  lemma NotAcceptable(words: seq<Word>, declared: seq<SType>, T: seq<Info>, G: seq<Info>, entries: seq<nat>,
                      dsLimit: nat, rsLimit: nat, i: nat)
    requires |T| == |words| && (forall v | 0 <= v < |T| :: T[v].flow == 0 || T[v].flow == 1)
    requires i < |entries| && entries[i] < |words| && words[entries[i]].Interpreted?
    requires !Fits(words, declared, G, T, entries[i])
    ensures !Acceptable(words, declared, G, entries, dsLimit, rsLimit)
  {
    hide TableOk;
  }

  lemma TooDeep(words: seq<Word>, declared: seq<SType>, T: seq<Info>, G: seq<Info>, entries: seq<nat>, dsLimit: nat,
                rsLimit: nat, i: nat)
    requires TableOk(words, declared, T) && i < |entries| && entries[i] < |words| == |T|
    requires words[entries[i]].Interpreted?
    requires T[entries[i]].flow == 1 && (T[entries[i]].maxDataStack > dsLimit || T[entries[i]].maxReturnStack > rsLimit)
    ensures !Acceptable(words, declared, G, entries, dsLimit, rsLimit)
  {
    hide TableOk;
    if Acceptable(words, declared, G, entries, dsLimit, rsLimit) {
      assert EntryOk(words, G, entries[i], dsLimit, rsLimit);
      AnalysisUnique(words, declared, T, G, entries[i]);
      assert false;
    }
  }

  /** Before any analysis, every table of declared effects is fine. */
  lemma InitialOk(words: seq<Word>, declared: seq<SType>, T: seq<Info>)
    requires |words| == |declared| && Initial(declared, T)
    ensures TableOk(words, declared, T) && AllRoomy(words, declared, T)
  {
  }
}
