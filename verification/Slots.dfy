/** Slot numbers of the words of the generated code (T0Comp.cs, lines 1541-1615). */
module Slots {
  import opened Base
  import opened Machine

  const FIRST_SLOT := 7  // slots 0 to 6 are the opcodes other than calls

  /** slots[w] is the slot of word w; ccodes lists the C code of the slots from 7 on, and interp the words of the
      slots that follow. */
  datatype Table = Table(slots: seq<nat>, ccodes: seq<string>, interp: seq<nat>) {
    function SlotInterpreted(): nat {
      FIRST_SLOT + |ccodes|
    }

    function Count(): nat {
      SlotInterpreted() + |interp|
    }

    /** The slot of every word leads back to that word, or to its C code; words with identical C code are merged. */
    ghost predicate Valid(words: seq<Word>) {
      && |slots| == |words|
      && (forall w | 0 <= w < |words| :: SlotOk(words, w))
      && (forall i, j | 0 <= i < j < |ccodes| :: ccodes[i] != ccodes[j])
      && (forall k | 0 <= k < |ccodes| :: Native(ccodes[k]) in words)
      && (forall k | 0 <= k < |interp| :: interp[k] < |words| && words[interp[k]].Interpreted?
            && slots[interp[k]] == SlotInterpreted() + k)
    }

    predicate SlotOk(words: seq<Word>, w: nat)
      requires w < |words| && |slots| == |words|
    {
      match words[w]
      case Native(c) => 0 <= slots[w] - FIRST_SLOT < |ccodes| && ccodes[slots[w] - FIRST_SLOT] == c
      case Interpreted(_, _) =>
        0 <= slots[w] - SlotInterpreted() < |interp| && interp[slots[w] - SlotInterpreted()] == w
    }
  }

  /** The dictionary from C code to slot, against the list of C code by slot. */
  ghost predicate Numbered(uni: map<string, nat>, ccodes: seq<string>) {
    && (forall c | c in uni :: 0 <= uni[c] - FIRST_SLOT < |ccodes| && ccodes[uni[c] - FIRST_SLOT] == c)
    && (forall k | 0 <= k < |ccodes| :: ccodes[k] in uni && uni[ccodes[k]] == FIRST_SLOT + k)
  }

  predicate NativeOk(words: seq<Word>, slots: seq<nat>, ccodes: seq<string>, w: nat)
    requires w < |words| == |slots|
  {
    words[w].Native? ==> 0 <= slots[w] - FIRST_SLOT < |ccodes| && ccodes[slots[w] - FIRST_SLOT] == words[w].ccode
  }

  method AssignNativeSlots(words: seq<Word>) returns (slots: seq<nat>, ccodes: seq<string>)
    ensures |slots| == |words| && forall w | 0 <= w < |words| :: NativeOk(words, slots, ccodes, w)
    ensures forall i, j | 0 <= i < j < |ccodes| :: ccodes[i] != ccodes[j]
    ensures forall k | 0 <= k < |ccodes| :: Native(ccodes[k]) in words
  {
    slots := seq(|words|, _ => 0);
    ccodes := [];
    var ccodeUni: map<string, nat> := map[];
    for w := 0 to |words|
      invariant |slots| == |words| && Numbered(ccodeUni, ccodes)
      invariant forall k | 0 <= k < |ccodes| :: Native(ccodes[k]) in words
      invariant forall v | 0 <= v < w :: NativeOk(words, slots, ccodes, v)
    {
      ghost var oldCodes := ccodes;
      if words[w].Native? {
        var c := words[w].ccode;
        if c !in ccodeUni {
          assert words[w] == Native(c);
          ccodeUni := ccodeUni[c := FIRST_SLOT + |ccodes|];
          ccodes := ccodes + [c];
        }
        ghost var before := slots;
        slots := slots[w := ccodeUni[c]];
        forall v | 0 <= v <= w ensures NativeOk(words, slots, ccodes, v) {
          assert v < w ==> NativeOk(words, before, oldCodes, v);
        }
      }
    }
  }

  method AssignSlots(words: seq<Word>) returns (t: Table)
    ensures t.Valid(words)
  {
    var slots: seq<nat>, ccodes: seq<string> := AssignNativeSlots(words);
    var interp: seq<nat> := [];
    var first := FIRST_SLOT + |ccodes|;
    for w := 0 to |words|
      invariant |slots| == |words|
      invariant forall v | 0 <= v < |words| :: NativeOk(words, slots, ccodes, v)
      invariant forall v | 0 <= v < w && words[v].Interpreted? ::
        0 <= slots[v] - first < |interp| && interp[slots[v] - first] == v
      invariant forall k | 0 <= k < |interp| ::
                interp[k] < w && words[interp[k]].Interpreted? && slots[interp[k]] == first + k
    {
      if words[w].Interpreted? {
        ghost var before := slots;
        slots := slots[w := first + |interp|];
        interp := interp + [w];
        forall v | 0 <= v < |words| ensures NativeOk(words, slots, ccodes, v) {
          assert NativeOk(words, before, ccodes, v);
        }
      }
    }
    t := Table(slots, ccodes, interp);
    forall w | 0 <= w < |words| ensures t.SlotOk(words, w) {
      assert NativeOk(words, slots, ccodes, w);
    }
  }
}
