/** The queue of jump targets of `AnalyseFlow` (WordInterpreted.cs, lines 154-228): how many entries it takes. */
module JumpQueue {
  import opened Base
  import opened Machine

  // ----- jumps that land on jumps -----

  /** The number of jumps that are met from opcode k on, while jumps land on jumps; no more than fuel are counted. */
  function Met(code: seq<Opcode>, k: int, fuel: nat): (m: nat)
    ensures m <= fuel
    decreases fuel
  {
    if fuel == 0 || !(0 <= k < |code|) || code[k].JumpDisp() == 0 then 0
    else 1 + Met(code, k + 1 + code[k].JumpDisp(), fuel - 1)
  }

  /** The number of jumps met, with one more than there are opcodes when there is no end of them. */
  function Jumps(code: seq<Opcode>, k: int): nat {
    Met(code, k, |code| + 1)
  }

  /** From opcode k on, only jumps are met. */
  ghost predicate Endless(code: seq<Opcode>, k: int) {
    forall fuel: nat :: Met(code, k, fuel) == fuel
  }

  lemma {:induction false} MetStep(code: seq<Opcode>, k: int, fuel: nat)
    ensures Met(code, k, fuel) == Min(fuel, Met(code, k, fuel + 1))
    decreases fuel
  {
    if fuel > 0 && 0 <= k < |code| {
      MetStep(code, k + 1 + code[k].JumpDisp(), fuel - 1);
    }
  }

  lemma {:induction false} MetLess(code: seq<Opcode>, k: int, fuel: nat, more: nat)
    requires fuel <= more
    ensures Met(code, k, fuel) == Min(fuel, Met(code, k, more))
    decreases more
  {
    if fuel < more {
      MetStep(code, k, more - 1);
      MetLess(code, k, fuel, more - 1);
    }
  }

  /** Jumps that come to an end are different jumps. */
  lemma {:induction false} DistinctJumps(code: seq<Opcode>, k: int, fuel: nat) returns (s: set<nat>)
    requires Met(code, k, fuel) < fuel
    ensures |s| == Met(code, k, fuel) && forall x | x in s ::
            x < |code| && 1 <= Met(code, x, fuel) <= Met(code, k, fuel)
    decreases fuel
  {
    s := {};
    if 0 <= k < |code| && code[k].JumpDisp() != 0 {
      s := DistinctJumps(code, k + 1 + code[k].JumpDisp(), fuel - 1);
      forall x | x in s ensures Met(code, x, fuel) == Met(code, x, fuel - 1) < Met(code, k, fuel) {
        MetStep(code, x, fuel - 1);
      }
      assert k !in s;
      s := s + {k};
    }
  }

  ghost function Offsets(n: nat): (r: set<nat>)
    ensures |r| == n && forall k: nat :: k in r <==> k < n
  {
    if n == 0 then {} else Offsets(n - 1) + {n - 1}
  }

  lemma SubsetSize(a: set<nat>, b: set<nat>)
    requires a <= b
    ensures |a| <= |b|
  {
    assert b == a + (b - a);
  }

  /** The jumps from opcode k on come to an end exactly when there are no more of them than opcodes. */
  lemma EndlessExactly(code: seq<Opcode>, k: int)
    ensures Jumps(code, k) > |code| <==> Endless(code, k)
  {
    if Jumps(code, k) > |code| {
      forall fuel: nat ensures Met(code, k, fuel) == fuel {
        if fuel <= |code| {
          MetLess(code, k, fuel, |code| + 1);
        } else if Met(code, k, fuel) < fuel {
          MetLess(code, k, |code| + 1, fuel);
          var s := DistinctJumps(code, k, fuel);
          SubsetSize(s, Offsets(|code|));
        }
      }
    }
  }

  /** Jumps that land on each other have no end. */
  lemma {:induction false} LoopIsEndless(code: seq<Opcode>, loop: set<int>, k: int, fuel: nat)
    requires forall x | x in loop :: 0 <= x < |code| && code[x].JumpDisp() != 0 && x + 1 + code[x].JumpDisp() in loop
    requires k in loop
    ensures Met(code, k, fuel) == fuel
    decreases fuel
  {
    if fuel > 0 {
      LoopIsEndless(code, loop, k + 1 + code[k].JumpDisp(), fuel - 1);
    }
  }

  // ----- what has been queued, and what will be -----

  /** The entries that the opcodes still to be visited will queue, themselves and through the jumps that they reach. */
  function Pending(code: seq<Opcode>, todo: seq<int>): nat {
    if todo == [] then 0 else Jumps(code, todo[0]) + Pending(code, todo[1..])
  }

  lemma {:induction false} PendingAppend(code: seq<Opcode>, a: seq<int>, b: seq<int>)
    ensures Pending(code, a + b) == Pending(code, a) + Pending(code, b)
    decreases |a|
  {
    if a == [] {
      assert a + b == b;
    } else {
      assert (a + b)[1..] == a[1..] + b;
      PendingAppend(code, a[1..], b);
    }
  }

  /** The jumps met from the opcodes of a set that are below n. */
  function Load(code: seq<Opcode>, roots: set<nat>, n: nat): nat
    decreases n
  {
    if n == 0 then 0 else Load(code, roots, n - 1) + if n - 1 in roots then Jumps(code, n - 1) else 0
  }

  lemma {:induction false} LoadMore(code: seq<Opcode>, roots: set<nat>, x: nat, n: nat)
    requires x !in roots
    decreases n
    ensures Load(code, roots + {x}, n) == Load(code, roots, n) + if x < n then Jumps(code, x) else 0
  {
    if n > 0 {
      LoadMore(code, roots, x, n - 1);
    }
  }

  lemma {:induction false} LoadMono(code: seq<Opcode>, a: set<nat>, b: set<nat>, n: nat)
    requires a <= b
    ensures Load(code, a, n) <= Load(code, b, n)
    decreases n
  {
    if n > 0 {
      LoadMono(code, a, b, n - 1);
    }
  }

  lemma {:induction false} LoadHas(code: seq<Opcode>, roots: set<nat>, r: nat, n: nat)
    requires r in roots && r < n
    ensures Jumps(code, r) <= Load(code, roots, n)
    decreases n
  {
    if r < n - 1 {
      LoadHas(code, roots, r, n - 1);
    }
  }

  /** Opcode k is the first one, or the one before it may fall through. */
  predicate Entered(code: seq<Opcode>, k: nat) {
    k == 0 || (k - 1 < |code| && code[k - 1].MayFallThrough())
  }

  /** Some jump lands on opcode k. */
  predicate Landed(code: seq<Opcode>, k: nat) {
    exists m | 0 <= m < |code| :: code[m].JumpDisp() != 0 && m + 1 + code[m].JumpDisp() == k
  }

  ghost function AllEntered(code: seq<Opcode>): (r: set<nat>)
    ensures forall k: nat :: k in r <==> k < |code| && Entered(code, k)
  {
    set k | 0 <= k < |code| && Entered(code, k)
  }

  /** The queue of a word never takes more entries than this, when this is no more than its size. */
  ghost function FullLoad(code: seq<Opcode>): nat {
    Load(code, AllEntered(code), |code|)
  }

  // ----- the account -----

  /** The opcodes that were annotated first by falling through, and the first opcode. Any other opcode was annotated by
      a jump that lands on it. */
  ghost predicate Roots(code: seq<Opcode>, sa: seq<Option<int>>, roots: set<nat>) {
    && |sa| == |code| && 0 in roots
    && (forall r | r in roots :: r < |code| && sa[r].Some? && Entered(code, r))
    && (forall k | 0 <= k < |code| && sa[k].Some? :: Explained(code, roots, k))
  }

  ghost predicate Explained(code: seq<Opcode>, roots: set<nat>, k: nat) {
    (k in roots || Landed(code, k)) && Covered(code, roots, k)
  }

  /** At least as many jumps are met from some root. */
  ghost predicate Covered(code: seq<Opcode>, roots: set<nat>, k: nat) {
    exists r :: r in roots && Jumps(code, r) >= Jumps(code, k)
  }

  /** No annotated opcode is followed by jumps without end. */
  predicate NoLoop(code: seq<Opcode>, sa: seq<Option<int>>)
    requires |sa| == |code|
  {
    forall k | 0 <= k < |code| && sa[k].Some? :: Jumps(code, k) <= |code|
  }

  /** The entries queued so far, tY, and those that the opcodes in todo will queue are the jumps met from the roots. */
  ghost predicate Ledger(code: seq<Opcode>, sa: seq<Option<int>>, roots: set<nat>, todo: seq<int>, tY: nat) {
    && Roots(code, sa, roots)
    && Load(code, roots, |code|) <= tY + Pending(code, todo)
    && (NoLoop(code, sa) ==> tY + Pending(code, todo) == Load(code, roots, |code|))
  }

  /** What a visit of opcode off queues and annotates: the target of a jump, and the next opcode when fell says so. */
  predicate Moves(code: seq<Opcode>, sa: seq<Option<int>>, sa': seq<Option<int>>, off: nat, rest: seq<int>,
                  todo: seq<int>, fell: bool) {
    && off < |code| == |sa| == |sa'| && sa[off].Some?
    && var disp := code[off].JumpDisp();
       && (disp != 0 ==> 0 <= off + 1 + disp < |code|)
       && (fell ==> code[off].MayFallThrough() && off + 1 < |code| && sa[off + 1].None?)
       && (forall k | 0 <= k < |code| ::
             sa'[k].Some? <==> sa[k].Some? || (disp != 0 && k == off + 1 + disp) || (fell && k == off + 1))
       && todo == (if fell then [off + 1] else []) + rest + (if disp != 0 then [off + 1 + disp] else [])
  }

  function MoreRoots(roots: set<nat>, off: nat, fell: bool): set<nat> {
    if fell then roots + {off + 1} else roots
  }

  function MoreEntries(code: seq<Opcode>, off: nat, tY: nat): nat {
    tY + if off < |code| && code[off].JumpDisp() != 0 then 1 else 0
  }

  lemma MovesPending(code: seq<Opcode>, sa: seq<Option<int>>, sa': seq<Option<int>>, off: nat, rest: seq<int>,
                     todo: seq<int>, fell: bool)
    requires Moves(code, sa, sa', off, rest, todo, fell)
    ensures Pending(code, todo) == (if fell then Jumps(code, off + 1) else 0) + Pending(code, rest)
                                   + (if code[off].JumpDisp() == 0 then 0
                                      else Jumps(code, off + 1 + code[off].JumpDisp()))
    ensures Pending(code, [off] + rest) == Jumps(code, off) + Pending(code, rest)
  {
    var disp := code[off].JumpDisp();
    var a, b := if fell then [off + 1] else [], if disp != 0 then [off + 1 + disp] else [];
    PendingAppend(code, a + rest, b);
    PendingAppend(code, a, rest);
    PendingAppend(code, [off], rest);
  }

  /** A jump meets one jump more than its target, up to the limit of the count. */
  lemma JumpsOfTarget(code: seq<Opcode>, k: nat)
    requires k < |code| && code[k].JumpDisp() != 0
    ensures var t := k + 1 + code[k].JumpDisp(); Jumps(code, k) == Min(|code| + 1, 1 + Jumps(code, t))
  {
    MetStep(code, k + 1 + code[k].JumpDisp(), |code|);
  }

  lemma NoJumps(code: seq<Opcode>, k: nat)
    requires k < |code| && code[k].JumpDisp() == 0
    ensures Jumps(code, k) == 0
  {
  }

  lemma RootsMove(code: seq<Opcode>, sa: seq<Option<int>>, sa': seq<Option<int>>, roots: set<nat>, off: nat,
                  rest: seq<int>, todo: seq<int>, fell: bool)
    requires Roots(code, sa, roots) && Moves(code, sa, sa', off, rest, todo, fell)
    ensures Roots(code, sa', MoreRoots(roots, off, fell))
  {
    hide Jumps, Landed, Covered;
    var roots' := MoreRoots(roots, off, fell);
    var disp := code[off].JumpDisp();
    if disp != 0 {
      TargetCovered(code, roots, off);
    }
    forall k | 0 <= k < |code| && sa'[k].Some? ensures Explained(code, roots', k) {
      if sa[k].Some? || (disp != 0 && k == off + 1 + disp) {
        CoveredMore(code, roots, roots', k);
      } else {
        RootCovered(code, roots', k);
      }
    }
  }

  lemma TargetCovered(code: seq<Opcode>, roots: set<nat>, off: nat)
    requires off < |code| && code[off].JumpDisp() != 0 && off + 1 + code[off].JumpDisp() >= 0
    requires Covered(code, roots, off)
    ensures Landed(code, off + 1 + code[off].JumpDisp()) && Covered(code, roots, off + 1 + code[off].JumpDisp())
  {
    hide Jumps;
    var k := off + 1 + code[off].JumpDisp();
    var r :| r in roots && Jumps(code, r) >= Jumps(code, off);
    JumpsOfTarget(code, off);
    JumpsBounded(code, k);
    assert r in roots && Jumps(code, r) >= Jumps(code, k);
  }

  lemma CoveredMore(code: seq<Opcode>, a: set<nat>, b: set<nat>, k: nat)
    requires Covered(code, a, k) && a <= b
    ensures Covered(code, b, k)
  {
    hide Jumps;
    var r :| r in a && Jumps(code, r) >= Jumps(code, k);
    assert r in b;
  }

  lemma RootCovered(code: seq<Opcode>, roots: set<nat>, k: nat)
    requires k in roots
    ensures Covered(code, roots, k)
  {
    assert Jumps(code, k) >= Jumps(code, k);
  }

  lemma JumpsBounded(code: seq<Opcode>, k: int)
    ensures Jumps(code, k) <= |code| + 1
  {
  }

  /** A visit keeps the account. */
  lemma LedgerKept(code: seq<Opcode>, sa: seq<Option<int>>, sa': seq<Option<int>>, roots: set<nat>, off: nat,
                   rest: seq<int>, todo: seq<int>, tY: nat, fell: bool)
    requires Ledger(code, sa, roots, [off] + rest, tY) && Moves(code, sa, sa', off, rest, todo, fell)
    ensures Ledger(code, sa', MoreRoots(roots, off, fell), todo, MoreEntries(code, off, tY))
  {
    hide Jumps, Roots, Pending, Load;
    RootsMove(code, sa, sa', roots, off, rest, todo, fell);
    MovesPending(code, sa, sa', off, rest, todo, fell);
    assert NoLoop(code, sa') ==> NoLoop(code, sa) && Jumps(code, off) <= |code|;
    if fell {
      assert off + 1 !in roots by {
        RootAnnotated(code, sa, roots, off + 1);
      }
      LoadMore(code, roots, off + 1, |code|);
    }
    if code[off].JumpDisp() != 0 {
      JumpsOfTarget(code, off);
    } else {
      NoJumps(code, off);
    }
  }

  lemma RootAnnotated(code: seq<Opcode>, sa: seq<Option<int>>, roots: set<nat>, k: nat)
    requires Roots(code, sa, roots) && k < |code| && sa[k].None?
    ensures k !in roots
  {
  }

  lemma LedgerStart(code: seq<Opcode>, sa: seq<Option<int>>)
    requires |sa| == |code| > 0 && sa[0].Some? && forall k | 0 < k < |sa| :: sa[k].None?
    ensures Ledger(code, sa, {0}, [0], 0)
  {
    hide Jumps;
    LoadOne(code, |code|);
    assert [0][1..] == [];
    assert Pending(code, [0]) == Jumps(code, 0) + Pending(code, []);
    RootCovered(code, {0}, 0);
    assert Explained(code, {0}, 0);
    assert Roots(code, sa, {0});
    assert Load(code, {0}, |code|) == Pending(code, [0]);
  }

  lemma {:induction false} LoadOne(code: seq<Opcode>, n: nat)
    ensures Load(code, {0}, n) == if n > 0 then Jumps(code, 0) else 0
  {
    if n > 0 {
      LoadOne(code, n - 1);
    }
  }

  /** When nothing is left to visit, the queue has taken exactly the jumps met from the roots, and no jumps without end
      were met. */
  lemma LedgerDone(code: seq<Opcode>, sa: seq<Option<int>>, roots: set<nat>, tY: nat)
    requires Ledger(code, sa, roots, [], tY) && tY <= |code|
    ensures NoLoop(code, sa) && tY == Load(code, roots, |code|)
  {
    hide Jumps, Load;
    forall k | 0 <= k < |code| && sa[k].Some? ensures Jumps(code, k) <= |code| {
      assert Explained(code, roots, k);
      var r :| r in roots && Jumps(code, r) >= Jumps(code, k);
      LoadHas(code, roots, r, |code|);
    }
  }

  /** When there is no room for another entry, more jumps are met from the roots than the queue can take. */
  lemma LedgerFull(code: seq<Opcode>, sa: seq<Option<int>>, roots: set<nat>, off: nat, rest: seq<int>)
    requires Ledger(code, sa, roots, [off] + rest, |code|) && off < |code| && code[off].JumpDisp() != 0
    ensures Load(code, roots, |code|) > |code| && FullLoad(code) > |code|
  {
    hide Jumps, Load;
    assert ([off] + rest)[0] == off;
    JumpsOfTarget(code, off);
    if !NoLoop(code, sa) {
      var k :| 0 <= k < |code| && sa[k].Some? && Jumps(code, k) > |code|;
      assert Explained(code, roots, k);
      var r :| r in roots && Jumps(code, r) >= Jumps(code, k);
      LoadHas(code, roots, r, |code|);
    }
    LoadMono(code, roots, AllEntered(code), |code|);
  }
}
