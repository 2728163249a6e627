/** The words that are part of the generated code (T0Comp.cs, lines 1473-1499). */
module Gather {
  import opened Base
  import opened Machine

  /** `GetReferences`: the words that an interpreted word calls, in order; native words call none. */
  function References(word: Word): (refs: seq<nat>) {
    if word.Native? then [] else Targets(word.code)
  }

  function Targets(code: seq<Opcode>): seq<nat> {
    if code == [] then []
    else (if code[0].Call? && code[0].target.Some? then [code[0].target.value] else []) + Targets(code[1..])
  }

  lemma {:induction false} TargetsAre(code: seq<Opcode>, v: nat)
    ensures v in Targets(code) <==> Call(Some(v)) in code
    decreases |code|
  {
    if code != [] {
      TargetsAre(code[1..], v);
      assert code == [code[0]] + code[1..];
    }
  }

  /** Each word of the sequence calls the next. */
  ghost predicate CallChain(words: seq<Word>, chain: seq<nat>) {
    && (forall i | 0 <= i < |chain| :: chain[i] < |words|)
    && (forall i | 0 <= i < |chain| - 1 :: chain[i + 1] in References(words[chain[i]]))
  }

  /** A chain of calls leads from an entry point to the word. */
  ghost predicate Needed(words: seq<Word>, entries: seq<nat>, w: nat) {
    exists chain: seq<nat> :: chain != [] && CallChain(words, chain) && chain[0] in entries && chain[|chain| - 1] == w
  }

  lemma NeededCallee(words: seq<Word>, entries: seq<nat>, w: nat, v: nat)
    requires Needed(words, entries, w) && w < |words| && v in References(words[w]) && v < |words|
    ensures Needed(words, entries, v)
  {
    var chain: seq<nat> :| chain != [] && CallChain(words, chain) && chain[0] in entries && chain[|chain| - 1] == w;
    var longer := chain + [v];
    assert CallChain(words, longer);
    assert longer[0] == chain[0] && longer[|longer| - 1] == v;
  }

  /** What a word needs is also needed by a word that calls it. */
  lemma NeededByCaller(words: seq<Word>, w: nat, v: nat, u: nat)
    requires w < |words| && v in References(words[w]) && Needed(words, [v], u)
    ensures Needed(words, [w], u)
  {
    var chain: seq<nat> :| chain != [] && CallChain(words, chain) && chain[0] in [v] && chain[|chain| - 1] == u;
    var longer := [w] + chain;
    forall i | 0 <= i < |longer| - 1 ensures longer[i + 1] in References(words[longer[i]]) {
      if i > 0 {
        assert chain[i - 1 + 1] in References(words[chain[i - 1]]);
      }
    }
    assert CallChain(words, longer);
    assert longer[0] == w && longer[|longer| - 1] == u;
  }

  /** A set that contains the entry points and what its members call contains every word that is needed. */
  lemma {:induction false} ClosedHasChain(words: seq<Word>, entries: seq<nat>, found: set<nat>, chain: seq<nat>)
    requires forall e | e in entries :: e in found
    requires forall w | w in found :: w < |words| && forall v | v in References(words[w]) :: v in found
    requires chain != [] && CallChain(words, chain) && chain[0] in entries
    ensures chain[|chain| - 1] in found
    decreases |chain|
  {
    var n := |chain| - 1;
    if n > 0 {
      var shorter := chain[..n];
      forall i | 0 <= i < |shorter| - 1 ensures shorter[i + 1] in References(words[shorter[i]]) {
        assert chain[i + 1] in References(words[chain[i]]);
      }
      ClosedHasChain(words, entries, found, shorter);
      assert chain[n - 1 + 1] in References(words[chain[n - 1]]);
    }
  }

  /** What has been found is needed, and what is found but no longer queued has had its callees found. */
  ghost predicate Gathering(words: seq<Word>, entries: seq<nat>, found: set<nat>, queue: seq<nat>) {
    && (forall w | w in found :: w < |words| && Needed(words, entries, w))
    && (forall w | w in queue :: w in found)
    && (forall w, v | w in found && w !in queue && v in References(words[w]) :: v in found)
  }

  /** Every call of the word has a target. */
  predicate Resolved(words: seq<Word>, word: Word) {
    word.Interpreted? ==> forall i | 0 <= i < |word.code| :: CallResolved(words, word.code[i])
  }

  predicate CallResolved(words: seq<Word>, op: Opcode) {
    op.Call? ==> op.target.Some? && op.target.value < |words|
  }

  lemma ResolvedReferences(words: seq<Word>, word: Word)
    requires Resolved(words, word)
    ensures forall v | v in References(word) :: v < |words|
  {
    if word.Interpreted? {
      forall v | v in References(word) ensures v < |words| {
        TargetsAre(word.code, v);
        var i :| 0 <= i < |word.code| && word.code[i] == Call(Some(v));
        assert CallResolved(words, word.code[i]);
      }
    }
  }

  /** Gathering fails: an entry point does not exist, or a word that is needed calls one that does not. */
  ghost predicate Missing(words: seq<Word>, entries: seq<nat>) {
    (exists e :: e in entries && e >= |words|)
    || exists w :: 0 <= w < |words| && Needed(words, entries, w) && !Resolved(words, words[w])
  }

  /** The entry points are the first words that are found; it fails when one does not exist. */
  method FindEntries(words: seq<Word>, entries: seq<nat>) returns (ok: bool, found: set<nat>, queue: seq<nat>)
    ensures ok <==> forall e | e in entries :: e < |words|
    ensures ok ==> Gathering(words, entries, found, queue)
    ensures ok ==> forall w :: (w in found <==> w in queue) && (w in found <==> w in entries)
  {
    hide Needed, References;
    found, queue := {}, [];
    var i := 0;
    while i < |entries|
      invariant 0 <= i <= |entries| && (forall e | e in entries[..i] :: e < |words|)
      invariant Gathering(words, entries, found, queue) && (forall w :: w in found <==> w in queue)
      invariant forall w :: w in found <==> w in entries[..i]
    {
      var e := entries[i];
      assert e in entries && entries[..i + 1] == entries[..i] + [e];
      if e !in found {
        if e >= |words| {
          return false, found, queue;
        }
        EntryNeeded(words, entries, i);
        found := found + {e};
        queue := queue + [e];
      }
      i := i + 1;
    }
    assert entries[..i] == entries;
    ok := true;
  }

  /** The words of the generated code are exactly those that a chain of calls connects to an entry point; None stands
      for the exception when an entry point or the target of a call is missing. */
  method GatherWords(words: seq<Word>, entries: seq<nat>) returns (r: Option<set<nat>>)
    ensures r.None? <==> Missing(words, entries)
    ensures r.Some? ==> forall w :: w in r.value <==> Needed(words, entries, w)
  {
    hide Needed, References, Resolved;
    var ok, found, queue := FindEntries(words, entries);
    if !ok {
      return None;
    }
    ghost var all := Below(|words|);
    while queue != []
      invariant Gathering(words, entries, found, queue) && (forall e | e in entries :: e in found) && found <= all
      invariant forall w | w in found && w !in queue :: Resolved(words, words[w])
      decreases |all - found|, |queue|
    {
      var w := queue[0];
      assert w in queue;
      if !Resolved(words, words[w]) {
        return None;
      }
      ResolvedReferences(words, words[w]);
      ghost var before, q := found, queue;
      found, queue := Expand(words, entries, found, queue[1..], w);
      if found != before {
        Shrinks(all, before, found);
      }
      assert forall u | u in before && u !in queue && u != w :: u !in q;
    }
    forall w ensures w in found <==> Needed(words, entries, w) {
      if Needed(words, entries, w) {
        NeededFound(words, entries, found, w);
      }
    }
    return Some(found);
  }

  ghost function Below(n: nat): (r: set<nat>)
    ensures forall w: nat :: w in r <==> w < n
  {
    if n == 0 then {} else Below(n - 1) + {n - 1}
  }

  lemma Shrinks(all: set<nat>, small: set<nat>, large: set<nat>)
    requires small < large <= all
    ensures |all - large| < |all - small|
  {
    var x :| x in large && x !in small;
    assert x in all - small && x !in all - large;
    ProperSubset(all - large, all - small);
  }

  lemma ProperSubset(a: set<nat>, b: set<nat>)
    requires a < b
    ensures |a| < |b|
  {
    assert b == a + (b - a);
  }

  lemma EntryNeeded(words: seq<Word>, entries: seq<nat>, i: nat)
    requires i < |entries| && entries[i] < |words|
    ensures Needed(words, entries, entries[i])
  {
    var chain := [entries[i]];
    assert CallChain(words, chain);
  }

  lemma NeededFound(words: seq<Word>, entries: seq<nat>, found: set<nat>, w: nat)
    requires Gathering(words, entries, found, []) && (forall e | e in entries :: e in found)
    requires Needed(words, entries, w)
    ensures w in found
  {
    var chain: seq<nat> :| chain != [] && CallChain(words, chain) && chain[0] in entries && chain[|chain| - 1] == w;
    ClosedHasChain(words, entries, found, chain);
  }

  /** The callees of w that were not found yet are found and queued. */
  method Expand(words: seq<Word>, ghost entries: seq<nat>, found: set<nat>, queue: seq<nat>, w: nat)
    returns (found': set<nat>, queue': seq<nat>)
    requires Gathering(words, entries, found, [w] + queue)
    requires forall v | w < |words| && v in References(words[w]) :: v < |words|
    ensures Gathering(words, entries, found', queue')
    ensures forall u | u in found' && u !in queue' :: u in found && u !in queue
    ensures found <= found' && (found' == found ==> queue' == queue)
    ensures forall v | v in found' :: v < |words|
  {
    hide Needed;
    found', queue' := found, queue;
    assert ([w] + queue)[0] == w;
    var refs := References(words[w]);
    var k := 0;
    while k < |refs|
      invariant 0 <= k <= |refs| && found <= found' && (found' == found ==> queue' == queue)
      invariant forall u | u in found' :: u < |words| && Needed(words, entries, u)
      invariant forall u | u in queue' :: u in found'
      invariant forall u | u in queue :: u in queue'
      invariant forall u | u in found' && u !in found :: u in queue'
      invariant forall j | 0 <= j < k :: refs[j] in found'
    {
      if refs[k] !in found' {
        NeededCallee(words, entries, w, refs[k]);
        found' := found' + {refs[k]};
        queue' := queue' + [refs[k]];
      }
      k := k + 1;
    }
  }
}
