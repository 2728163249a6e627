/** The rewriting of the query of a cleaned URL (src/clean_url.c, lines 202-285). */
module CleanQuery {
  import opened Base
  import opened Query

  datatype Flags = Flags(stripEmpty: bool, stripDuplicates: bool)

  /** The parameter is not dropped for being empty. */
  predicate Full(f: Flags, p: Parameter) {
    f.stripEmpty ==> p.key != "" && p.value != ""
  }

  /** Parameter i is kept: no earlier parameter that is not dropped for being empty has its key. */
  predicate Survives(ps: seq<Parameter>, f: Flags, i: nat)
    requires i < |ps|
  {
    Full(f, ps[i]) && (f.stripDuplicates ==> forall j | 0 <= j < i :: Full(f, ps[j]) ==> ps[j].key != ps[i].key)
  }

  /** The positions, among the first n, of the parameters that are kept. */
  function Survivors(ps: seq<Parameter>, f: Flags, n: nat): (r: seq<nat>)
    requires n <= |ps|
    ensures |r| <= n && forall k | 0 <= k < |r| :: r[k] < n
  {
    if n == 0 then []
    else Survivors(ps, f, n - 1) + if Survives(ps, f, n - 1) then [n - 1] else []
  }

  function At(ps: seq<Parameter>, indices: seq<nat>): (r: seq<Parameter>)
    requires forall k | 0 <= k < |indices| :: indices[k] < |ps|
    ensures |r| == |indices| && forall k | 0 <= k < |r| :: r[k] == ps[indices[k]]
  {
    seq(|indices|, k requires 0 <= k < |indices| => ps[indices[k]])
  }

  function Kept(ps: seq<Parameter>, f: Flags): (r: seq<Parameter>) {
    At(ps, Survivors(ps, f, |ps|))
  }

  /** The new query; "" stands for a URL without a query. */
  function Rewrite(q: string, f: Flags): string {
    Print(Kept(Parse(q), f))
  }

  // ----- which parameters are kept -----

  /** The positions of the parameters that are kept are in increasing order, and they are exactly those that survive. */
  lemma {:induction false} SurvivorsAre(ps: seq<Parameter>, f: Flags, n: nat)
    requires n <= |ps|
    ensures var r := Survivors(ps, f, n);
            && (forall a, b | 0 <= a < b < |r| :: r[a] < r[b])
            && (forall i | 0 <= i < n :: i in r <==> Survives(ps, f, i))
    decreases n
  {
    hide Survives;
    if n > 0 {
      SurvivorsAre(ps, f, n - 1);
    }
  }

  /** Without duplicates, the keys that are kept are pairwise distinct. */
  lemma KeysDistinct(ps: seq<Parameter>, f: Flags, a: nat, b: nat)
    requires f.stripDuplicates && a < b < |Kept(ps, f)|
    ensures Kept(ps, f)[a].key != Kept(ps, f)[b].key
  {
    var r := Survivors(ps, f, |ps|);
    SurvivorsAre(ps, f, |ps|);
    assert r[a] in r && r[b] in r;
    assert Survives(ps, f, r[a]) && Survives(ps, f, r[b]);
  }

  /** The first parameter with a key, among those that are not dropped for being empty. */
  lemma {:induction false} FirstWithKey(ps: seq<Parameter>, f: Flags, i: nat) returns (first: nat)
    requires i < |ps| && Full(f, ps[i])
    ensures first <= i && Full(f, ps[first]) && ps[first].key == ps[i].key
    ensures forall j | 0 <= j < first :: Full(f, ps[j]) ==> ps[j].key != ps[i].key
    decreases i
  {
    if j :| 0 <= j < i && Full(f, ps[j]) && ps[j].key == ps[i].key {
      first := FirstWithKey(ps, f, j);
    } else {
      first := i;
    }
  }

  /** No key is lost: each key that is not only in parameters dropped for being empty is kept, with its first such
      value. */
  lemma EveryKeyKept(ps: seq<Parameter>, f: Flags, i: nat) returns (first: nat)
    requires i < |ps| && Full(f, ps[i])
    ensures first <= i && ps[first].key == ps[i].key && Survives(ps, f, first) && first in Survivors(ps, f, |ps|)
    ensures forall j | 0 <= j < first :: Full(f, ps[j]) ==> ps[j].key != ps[i].key
  {
    first := FirstWithKey(ps, f, i);
    SurvivorsAre(ps, f, |ps|);
  }

  /** A parameter may be kept: neither its key nor its value is empty, if those are stripped. */
  predicate MayKeep(stripEmpty: bool, p: Parameter) {
    stripEmpty ==> p.key != "" && p.value != ""
  }

  /** The parameters that are kept, by their positions: those that may be, and that have no earlier one with their key
      that may be, if duplicates are stripped; in their order. */
  lemma KeptMeans(ps: seq<Parameter>, f: Flags)
    ensures var r := Survivors(ps, f, |ps|);
            && |Kept(ps, f)| == |r| && (forall k | 0 <= k < |r| :: Kept(ps, f)[k] == ps[r[k]])
            && (forall a, b | 0 <= a < b < |r| :: r[a] < r[b])
            && forall i | 0 <= i < |ps| ::
                 i in r <==>
                 && MayKeep(f.stripEmpty, ps[i])
                 && (f.stripDuplicates ==> forall j | 0 <= j < i && ps[j].key == ps[i].key ::
                     !MayKeep(f.stripEmpty, ps[j]))
  {
    SurvivorsAre(ps, f, |ps|);
    forall i | 0 <= i < |ps|
      ensures Survives(ps, f, i) <==>
              && MayKeep(f.stripEmpty, ps[i])
              && (f.stripDuplicates ==> forall j | 0 <= j < i && ps[j].key == ps[i].key ::
                  !MayKeep(f.stripEmpty, ps[j]))
    {
      assert forall j | 0 <= j < |ps| :: Full(f, ps[j]) <==> MayKeep(f.stripEmpty, ps[j]);
    }
  }

  // ----- rewriting twice -----

  /** What is kept is all kept a second time. */
  lemma KeptTwice(ps: seq<Parameter>, f: Flags)
    ensures Kept(Kept(ps, f), f) == Kept(ps, f)
  {
    var ks := Kept(ps, f);
    var r := Survivors(ps, f, |ps|);
    SurvivorsAre(ps, f, |ps|);
    forall k | 0 <= k < |ks| ensures Survives(ks, f, k) {
      assert r[k] in r;
      assert Survives(ps, f, r[k]);
      if f.stripDuplicates {
        forall j | 0 <= j < k ensures ks[j].key != ks[k].key {
          KeysDistinct(ps, f, j, k);
        }
      }
    }
    AllSurvive(ks, f, |ks|);
  }

  lemma {:induction false} AllSurvive(ps: seq<Parameter>, f: Flags, n: nat)
    requires n <= |ps| && forall k | 0 <= k < |ps| :: Survives(ps, f, k)
    ensures |Survivors(ps, f, n)| == n && forall k | 0 <= k < n :: Survivors(ps, f, n)[k] == k
    decreases n
  {
    if n > 0 {
      AllSurvive(ps, f, n - 1);
    }
  }

  lemma KeptClean(ps: seq<Parameter>, f: Flags)
    requires AllClean(ps)
    ensures AllClean(Kept(ps, f))
  {
  }

  /** Rewriting is a normalisation: rewriting the result, when there is one, changes nothing. */
  lemma RewriteTwice(q: string, f: Flags)
    ensures Rewrite(q, f) != "" ==> Rewrite(Rewrite(q, f), f) == Rewrite(q, f)
    ensures Rewrite(q, f) != "" ==> Parse(Rewrite(q, f)) == Kept(Parse(q), f)
  {
    var ks := Kept(Parse(q), f);
    ParseClean(q);
    KeptClean(Parse(q), f);
    if ks != [] {
      ParsePrint(ks);
      KeptTwice(Parse(q), f);
    }
  }

  /** Some parameter is kept. */
  ghost predicate SomeSurvive(ps: seq<Parameter>, f: Flags) {
    exists i :: 0 <= i < |ps| && Survives(ps, f, i)
  }

  lemma NoneKept(ps: seq<Parameter>, f: Flags)
    ensures Kept(ps, f) == [] <==> !SomeSurvive(ps, f)
  {
    hide Survives;
    var r := Survivors(ps, f, |ps|);
    SurvivorsAre(ps, f, |ps|);
    if r != [] {
      assert r[0] in r;
      assert Survives(ps, f, r[0]);
    } else {
      forall i | 0 <= i < |ps| ensures !Survives(ps, f, i) {
        assert i !in r;
      }
    }
  }

  /** A query is left exactly when a parameter survives. */
  lemma SomethingLeft(q: string, f: Flags)
    ensures Rewrite(q, f) != "" <==> SomeSurvive(Parse(q), f)
  {
    hide SomeSurvive, Kept;
    NoneKept(Parse(q), f);
  }

  // ----- the buffer -----

  /** Characters in the printed form of n parameters. */
  function Size(ps: seq<Parameter>): nat {
    if ps == [] then 0 else Size(ps[..|ps| - 1]) + |ps[|ps| - 1].key| + |ps[|ps| - 1].value| + 2
  }

  lemma {:induction false} PrintSize(ps: seq<Parameter>)
    ensures |Print(ps)| == if ps == [] then 0 else Size(ps) - 1
    decreases |ps|
  {
    if ps != [] {
      var n := |ps| - 1;
      PrintSize(ps[..n]);
      assert ps == ps[..n] + [ps[n]];
      PrintSnoc(ps[..n], ps[n]);
    }
  }

  lemma {:induction false} SurvivorsSize(ps: seq<Parameter>, f: Flags, n: nat)
    requires n <= |ps|
    ensures Size(At(ps, Survivors(ps, f, n))) <= Size(ps[..n])
    decreases n
  {
    hide Survives, At, Survivors, Size;
    if n > 0 {
      SurvivorsSize(ps, f, n - 1);
      OneMore(ps, f, n - 1);
      assert ps[..n] == ps[..n - 1] + [ps[n - 1]];
      SizeSnoc(ps[..n - 1], ps[n - 1]);
      SizeSnoc(At(ps, Survivors(ps, f, n - 1)), ps[n - 1]);
    } else {
      NoSurvivors(ps, f);
      assert ps[..0] == [];
    }
  }

  lemma SizeSnoc(ps: seq<Parameter>, p: Parameter)
    ensures Size(ps + [p]) == Size(ps) + |p.key| + |p.value| + 2
  {
    assert (ps + [p])[..|ps|] == ps;
  }

  /** The bytes reserved for the new query, three for each character of the old one and one more, are enough, except for
      an empty query of which the parameter is not stripped. */
  lemma BufferSuffices(q: string, f: Flags)
    ensures |Rewrite(q, f)| + 1 <= 3 * |q| + 1 <==> q != "" || f.stripEmpty
  {
    var ps := Parse(q);
    SurvivorsSize(ps, f, |ps|);
    assert ps[..|ps|] == ps;
    PrintSize(ps);
    PrintSize(Kept(ps, f));
    PrintParse(q);
    UnsplitBound(q);
    if q == "" {
      EmptyQuery(f);
    }
  }

  lemma EmptyQuery(f: Flags)
    ensures Rewrite("", f) == if f.stripEmpty then "" else "="
  {
    var p := Parameter("", "");
    assert Parse("") == [p];
    var r := Survivors([p], f, 1);
    assert Survivors([p], f, 0) == [];
    assert r == if f.stripEmpty then [] else [0];
    assert !f.stripEmpty ==> At([p], r) == [p];
    assert Piece(p) == "=";
  }

  // ----- the loops -----

  /** Among the first n parameters, the keys that are kept are those of the parameters not dropped for being empty. */
  lemma {:induction false} KeptKeys(ps: seq<Parameter>, f: Flags, n: nat, key: string)
    requires n <= |ps| && f.stripDuplicates
    ensures (exists k :: 0 <= k < |Survivors(ps, f, n)| && ps[Survivors(ps, f, n)[k]].key == key) <==>
            (exists j :: 0 <= j < n && Full(f, ps[j]) && ps[j].key == key)
  {
    var r := Survivors(ps, f, n);
    SurvivorsAre(ps, f, n);
    if k :| 0 <= k < |r| && ps[r[k]].key == key {
      assert r[k] in r;
      assert Survives(ps, f, r[k]);
    }
    if j :| 0 <= j < n && Full(f, ps[j]) && ps[j].key == key {
      var first := FirstWithKey(ps, f, j);
      assert Survives(ps, f, first);
      assert first in r;
      var k :| 0 <= k < |r| && r[k] == first;
    }
  }

  /** The inner loop: whether the key is among the first parameters of the array. */
  method IsDuplicate(parameters: array<Parameter>, position: nat, key: string) returns (found: bool)
    requires position <= parameters.Length
    ensures found <==> exists k :: 0 <= k < position && parameters[..position][k].key == key
  {
    found := false;
    ghost var seen := parameters[..position];
    for index := 0 to position
      invariant !found && forall k | 0 <= k < index :: seen[k].key != key
    {
      assert parameters[index] == seen[index];
      found := parameters[index].key == key;
      if found {
        break;
      }
    }
  }

  /** The part of the loop that prints a parameter. */
  method AppendParameter(dst: string, p: Parameter) returns (out: string)
    ensures out == if dst == "" then Piece(p) else dst + "&" + Piece(p)
  {
    out := dst;
    if out != "" {
      out := out + "&";
    }
    out := out + p.key;
    out := out + "=";
    out := out + p.value;
  }

  /** The rewriting of the query of a URL; None is a URL without a query. */
  method RewriteQuery(q: string, f: Flags) returns (r: Option<string>)
    ensures r == if Rewrite(q, f) == "" then None else Some(Rewrite(q, f))
  {
    hide Print, Rewrite, At, Survivors, Find, Split;
    var query := new QueryObject();
    query.ParseInto(q);
    assert [] + Parse(q) == Parse(q);
    var out := PrintSurvivors(query.parameters, query.position, f, Parse(q));
    RewriteIs(q, f);
    r := if out == "" then None else Some(out);
  }

  /** The loop over the parameters. */
  method PrintSurvivors(all: array<Parameter>, n: nat, f: Flags, ghost ps: seq<Parameter>) returns (out: string)
    requires n <= all.Length && ps == all[..n]
    ensures out == Print(At(ps, Survivors(ps, f, n)))
  {
    hide Survives, Print, Piece, Survivors, Full, At;
    NoSurvivors(ps, f);
    PrintNothing();
    var position: nat := 0;
    var parameters := new Parameter[n](_ => Parameter("", ""));
    out := "";
    for index := 0 to n
      invariant position <= index && all[..n] == ps
      invariant f.stripDuplicates ==> parameters[..position] == At(ps, Survivors(ps, f, index))
      invariant out == Print(At(ps, Survivors(ps, f, index)))
    {
      ghost var kept := At(ps, Survivors(ps, f, index));
      var p := all[index];
      assert p == all[..n][index];
      var keep;
      keep, position := Keep(p, f, parameters, position, ps, index);
      OneMore(ps, f, index);
      if keep {
        PrintSnoc(kept, p);
        out := AppendParameter(out, p);
      }
    }
  }

  /** The tests of the loop; a parameter that is kept is recorded in the array. */
  method Keep(p: Parameter, f: Flags, parameters: array<Parameter>, position: nat, ghost ps: seq<Parameter>,
              ghost index: nat)
    returns (keep: bool, position': nat)
    requires index < |ps| && p == ps[index] && position <= index && parameters.Length == |ps|
    requires f.stripDuplicates ==> parameters[..position] == At(ps, Survivors(ps, f, index))
    modifies parameters
    ensures position' <= index + 1 && keep == Survives(ps, f, index)
    ensures f.stripDuplicates ==> parameters[..position'] == At(ps, Survivors(ps, f, index + 1))
  {
    hide Survives, Survivors, At;
    position' := position;
    ghost var seen := parameters[..position];
    KeepIs(ps, f, index, At(ps, Survivors(ps, f, index)));
    OneMore(ps, f, index);
    if f.stripEmpty && (p.key == "" || p.value == "") {
      return false, position;
    }
    if f.stripDuplicates {
      var duplicate := IsDuplicate(parameters, position, p.key);
      if duplicate {
        return false, position;
      }
      parameters[position] := p;
      position' := position + 1;
      assert parameters[..position'] == seen + [p];
    }
    return true, position';
  }

  lemma RewriteIs(q: string, f: Flags)
    ensures Rewrite(q, f) == Print(At(Parse(q), Survivors(Parse(q), f, |Parse(q)|)))
  {
  }

  lemma NoSurvivors(ps: seq<Parameter>, f: Flags)
    ensures At(ps, Survivors(ps, f, 0)) == []
  {
  }

  lemma OneMore(ps: seq<Parameter>, f: Flags, n: nat)
    requires n < |ps|
    ensures At(ps, Survivors(ps, f, n + 1)) ==
            if Survives(ps, f, n) then At(ps, Survivors(ps, f, n)) + [ps[n]] else At(ps, Survivors(ps, f, n))
  {
  }

  /** The test of the loop. */
  lemma KeepIs(ps: seq<Parameter>, f: Flags, n: nat, kept: seq<Parameter>)
    requires n < |ps| && kept == At(ps, Survivors(ps, f, n))
    ensures Survives(ps, f, n) <==>
              !(f.stripEmpty && (ps[n].key == "" || ps[n].value == ""))
              && (f.stripDuplicates ==> !exists k :: 0 <= k < |kept| && kept[k].key == ps[n].key)
  {
    if f.stripDuplicates {
      KeptKeys(ps, f, n, ps[n].key);
    }
  }
}
