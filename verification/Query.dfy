/** Query strings (src/query.c). A parameter without a key or without a value, a null pointer in the source, has "". */
module Query {
  import opened Base

  datatype Parameter = Parameter(key: string, value: string)

  /** The first position of a character, or the end of the string. */
  function Find(s: string, c: char): (k: nat)
    ensures k <= |s| && c !in s[..k] && (k < |s| ==> s[k] == c)
  {
    if s == "" || s[0] == c then 0
    else
      var k := Find(s[1..], c);
      assert s[..k + 1] == [s[0]] + s[1..][..k];
      k + 1
  }

  lemma FindIs(s: string, c: char, k: nat)
    requires k <= |s| && c !in s[..k] && (k < |s| ==> s[k] == c)
    ensures Find(s, c) == k
  {
  }

  lemma FindAtMost(s: string, c: char, i: nat)
    requires i < |s| && s[i] == c
    ensures Find(s, c) <= i
  {
  }

  /** The end is reached only without the character. */
  lemma FindEnd(s: string, c: char)
    ensures Find(s, c) == |s| <==> c !in s
  {
    if c in s {
      var i :| 0 <= i < |s| && s[i] == c;
      FindAtMost(s, c, i);
    } else {
      assert s[..|s|] == s;
      FindIs(s, c, |s|);
    }
  }

  // ----- printing -----

  function Piece(p: Parameter): (s: string)
    ensures |s| == |p.key| + 1 + |p.value|
  {
    p.key + "=" + p.value
  }

  function Print(ps: seq<Parameter>): (s: string)
    ensures s == "" <==> ps == []
  {
    if ps == [] then ""
    else if |ps| == 1 then Piece(ps[0])
    else Piece(ps[0]) + "&" + Print(ps[1..])
  }

  lemma {:induction false} PrintSnoc(ps: seq<Parameter>, p: Parameter)
    ensures Print(ps + [p]) == if ps == [] then Piece(p) else Print(ps) + "&" + Piece(p)
    decreases |ps|
  {
    var qs := ps + [p];
    if ps != [] {
      assert qs[1..] == ps[1..] + [p];
      PrintSnoc(ps[1..], p);
      if |ps| > 1 {
        assert Piece(ps[0]) + "&" + (Print(ps[1..]) + "&" + Piece(p)) ==
               Piece(ps[0]) + "&" + Print(ps[1..]) + "&" + Piece(p);
      }
    }
  }

  // ----- parsing -----

  /** The parts of a query between separators; there is always at least one. */
  function Segments(q: string): (r: seq<string>)
    ensures r != []
  {
    var k := Find(q, '&');
    if k == |q| then [q] else [q[..k]] + Segments(q[k + 1..])
  }

  /** A segment is split at its first '='; without one, all of it is the key. */
  function Split(seg: string): Parameter {
    var k := Find(seg, '=');
    if k == |seg| then Parameter(seg, "") else Parameter(seg[..k], seg[k + 1..])
  }

  function Parse(q: string): (ps: seq<Parameter>)
    ensures ps != []
  {
    var k := Find(q, '&');
    if k == |q| then [Split(q)] else [Split(q[..k])] + Parse(q[k + 1..])
  }

  lemma ParseStep(q: string)
    ensures var k := Find(q, '&');
            Parse(q) == [Split(q[..k])] + if k == |q| then [] else Parse(q[k + 1..])
  {
    hide Find, Split;
    assert Find(q, '&') == |q| ==> q[..Find(q, '&')] == q;
  }

  lemma PrintNothing()
    ensures Print([]) == ""
  {
  }

  lemma PieceIs(start: string, p: Parameter)
    ensures start + p.key + "=" + p.value == start + Piece(p)
  {
  }

  lemma PrintStep(p: Parameter, ps: seq<Parameter>)
    ensures Print([p] + ps) == Piece(p) + if ps == [] then "" else "&" + Print(ps)
  {
    hide Piece;
    assert ([p] + ps)[1..] == ps;
    if ps != [] {
      assert Piece(p) + "&" + Print(ps) == Piece(p) + ("&" + Print(ps));
    }
  }

  lemma {:induction false} ParseSegments(q: string)
    ensures |Parse(q)| == |Segments(q)| && forall i | 0 <= i < |Parse(q)| :: Parse(q)[i] == Split(Segments(q)[i])
    decreases |q|
  {
    hide Find, Split;
    var k := Find(q, '&');
    if k < |q| {
      var rest := q[k + 1..];
      ParseSegments(rest);
      assert Segments(q) == [q[..k]] + Segments(rest) && Parse(q) == [Split(q[..k])] + Parse(rest);
    }
  }

  /** What can be printed and read back: no separator in the key, and no '&' in the value. */
  predicate Clean(p: Parameter) {
    '&' !in p.key && '=' !in p.key && '&' !in p.value
  }

  predicate AllClean(ps: seq<Parameter>) {
    forall i | 0 <= i < |ps| :: Clean(ps[i])
  }

  lemma SplitPiece(p: Parameter)
    requires '=' !in p.key
    ensures Split(Piece(p)) == p
  {
    var s := Piece(p);
    assert s[..|p.key|] == p.key;
    FindIs(s, '=', |p.key|);
    assert s[|p.key| + 1..] == p.value;
  }

  lemma PieceHasNoAnd(p: Parameter)
    requires Clean(p)
    ensures '&' !in Piece(p)
  {
  }

  lemma {:induction false} ParsePrint(ps: seq<Parameter>)
    requires ps != [] && AllClean(ps)
    ensures Parse(Print(ps)) == ps
    decreases |ps|
  {
    hide Find, Split, Piece, Parse, Print;
    var s, p, rest := Print(ps), ps[0], ps[1..];
    assert ps == [p] + rest;
    PrintStep(p, rest);
    PieceHasNoAnd(p);
    SplitPiece(p);
    assert s[..|Piece(p)|] == Piece(p);
    FindIs(s, '&', |Piece(p)|);
    ParseStep(s);
    if rest != [] {
      assert s[|Piece(p)| + 1..] == Print(rest);
      ParsePrint(rest);
    }
  }

  lemma SplitClean(seg: string)
    requires '&' !in seg
    ensures Clean(Split(seg))
  {
    var k := Find(seg, '=');
    assert forall c | c in seg[..k] :: c in seg;
    if k < |seg| {
      assert forall c | c in seg[k + 1..] :: c in seg;
    }
  }

  /** Every parsed parameter is clean. */
  lemma {:induction false} ParseClean(q: string)
    ensures AllClean(Parse(q))
    decreases |q|
  {
    hide Find, Split, Parse, Clean;
    var k := Find(q, '&');
    SplitClean(q[..k]);
    ParseStep(q);
    if k < |q| {
      ParseClean(q[k + 1..]);
    }
  }

  /** Parsing undoes printing exactly for nonempty lists of clean parameters. */
  lemma ParseUndoesPrint(ps: seq<Parameter>)
    ensures Parse(Print(ps)) == ps <==> ps != [] && AllClean(ps)
  {
    ParseClean(Print(ps));
    if ps != [] && AllClean(ps) {
      ParsePrint(ps);
    }
  }

  predicate HasEqual(seg: string) {
    '=' in seg
  }

  /** The number of segments without '='. */
  function Unsplit(q: string): nat {
    var k := Find(q, '&');
    (if HasEqual(q[..k]) then 0 else 1) + if k == |q| then 0 else Unsplit(q[k + 1..])
  }

  lemma UnsplitStep(q: string)
    ensures var k := Find(q, '&');
            Unsplit(q) == (if HasEqual(q[..k]) then 0 else 1) + if k == |q| then 0 else Unsplit(q[k + 1..])
  {
    hide Find;
  }

  lemma PieceOfSegment(seg: string)
    ensures Piece(Split(seg)) == if HasEqual(seg) then seg else seg + "="
  {
    var k := Find(seg, '=');
    if k < |seg| {
      assert seg == seg[..k] + "=" + seg[k + 1..];
    } else {
      assert seg[..k] == seg;
    }
  }

  /** Printing a parsed query adds one '=' for each segment without one, and changes nothing else. */
  lemma {:induction false} PrintParse(q: string)
    ensures |Print(Parse(q))| == |q| + Unsplit(q)
    ensures Unsplit(q) == 0 ==> Print(Parse(q)) == q
    decreases |q|
  {
    hide Find, Split, Piece, Parse, Print, Unsplit;
    var k := Find(q, '&');
    var seg := q[..k];
    PieceOfSegment(seg);
    ParseStep(q);
    UnsplitStep(q);
    if k < |q| {
      var rest := q[k + 1..];
      PrintParse(rest);
      PrintStep(Split(seg), Parse(rest));
      assert q == seg + ("&" + rest);
    } else {
      PrintStep(Split(seg), []);
      assert [Split(seg)] + [] == [Split(seg)];
      assert seg == q;
    }
  }

  lemma {:induction false} UnsplitIs(q: string)
    ensures Unsplit(q) == 0 <==> forall i | 0 <= i < |Segments(q)| :: HasEqual(Segments(q)[i])
    decreases |q|
  {
    hide Find;
    var k := Find(q, '&');
    if k < |q| {
      var rest := q[k + 1..];
      UnsplitIs(rest);
      assert Segments(q) == [q[..k]] + Segments(rest);
      assert Segments(q)[0] == q[..k];
      if i :| 0 <= i < |Segments(rest)| && !HasEqual(Segments(rest)[i]) {
        assert !HasEqual(Segments(q)[i + 1]);
      }
    } else {
      assert q[..k] == q == Segments(q)[0];
    }
  }

  /** Printing undoes parsing exactly when every segment has '='; printing and parsing once more never changes
      anything. */
  lemma PrintUndoesParse(q: string)
    ensures Print(Parse(q)) == q <==> forall i | 0 <= i < |Segments(q)| :: HasEqual(Segments(q)[i])
    ensures Parse(Print(Parse(q))) == Parse(q)
    ensures Print(Parse(Print(Parse(q)))) == Print(Parse(q))
  {
    PrintParse(q);
    UnsplitIs(q);
    ParseClean(q);
    ParsePrint(Parse(q));
  }

  /** A query of n characters has at most n + 1 segments. */
  lemma {:induction false} UnsplitBound(q: string)
    ensures Unsplit(q) <= |q| + 1
    decreases |q|
  {
    hide Find;
    var k := Find(q, '&');
    if k < |q| {
      UnsplitBound(q[k + 1..]);
    }
  }

  // ----- the query object -----

  /** `strstr` for a string of one character, from a position on. */
  method Seek(s: string, from: nat, c: char) returns (k: nat)
    requires from <= |s|
    ensures k == from + Find(s[from..], c) <= |s|
  {
    k := from;
    while k < |s| && s[k] != c
      invariant from <= k <= |s| && c !in s[from..k]
    {
      k := k + 1;
    }
    assert s[from..][..k - from] == s[from..k];
    FindIs(s[from..], c, k - from);
  }

  /** `struct Query`; size counts parameters instead of bytes. */
  class QueryObject {
    var parameters: array<Parameter>
    var position: nat
    var size: nat
    var slength: nat

    /** slength is the length of the printed form. */
    ghost predicate Valid()
      reads this, parameters
    {
      position == size == parameters.Length && slength == |Print(parameters[..])|
    }

    ghost function Contents(): seq<Parameter>
      reads this, parameters
    {
      parameters[..]
    }

    /** A zeroed structure. */
    constructor ()
      ensures Valid() && Contents() == [] && fresh(parameters)
    {
      parameters := new Parameter[0];
      position, size, slength := 0, 0, 0;
    }

    method PutParameter(p: Parameter)
      requires Valid()
      modifies this
      ensures Valid() && Contents() == old(Contents()) + [p] && fresh(parameters)
    {
      hide Print, Piece;
      ghost var was := parameters[..];
      var grown := new Parameter[size + 1](i => p);
      forall i | 0 <= i < size {
        grown[i] := parameters[i];
      }
      size := size + 1;
      parameters := grown;
      parameters[position] := p;
      position := position + 1;
      assert parameters[..] == was + [p];
      PrintSnoc(was, p);
      if slength > 0 {
        slength := slength + 1;
      }
      slength := slength + |p.key|;
      slength := slength + 1;
      slength := slength + |p.value|;
    }

    method AddParameter(key: string, value: string)
      requires Valid()
      modifies this
      ensures Valid() && Contents() == old(Contents()) + [Parameter(key, value)] && fresh(parameters)
    {
      PutParameter(Parameter(key, value));
    }

    /** `query_stringify`. */
    method Stringify() returns (dst: string)
      requires Valid()
      ensures dst == Print(Contents()) && |dst| == slength
    {
      hide Print, Piece;
      PrintNothing();
      dst := "";
      for index := 0 to position
        invariant dst == Print(parameters[..index])
      {
        var p := parameters[index];
        PrintSnoc(parameters[..index], p);
        assert parameters[..index + 1] == parameters[..index] + [p];
        if dst != "" {
          dst := dst + "&";
        }
        ghost var start := dst;
        dst := dst + p.key;
        dst := dst + "=";
        dst := dst + p.value;
        PieceIs(start, p);
      }
      assert parameters[..position] == parameters[..];
    }

    /** `query_parse`. */
    method ParseInto(query: string)
      requires Valid()
      modifies this
      ensures Valid() && Contents() == old(Contents()) + Parse(query) && fresh(parameters)
    {
      hide Valid, Find, Split, Parse;
      ghost var was := Contents();
      var start := 0;
      var end := Seek(query, 0, '&');
      assert query[0..] == query;
      while true
        invariant Valid() && start <= |query| && end == start + Find(query[start..], '&')
        invariant start == 0 ==> parameters == old(parameters) && Contents() == was
        invariant start > 0 ==> fresh(parameters)
        invariant was + Parse(query) == Contents() + Parse(query[start..])
        decreases |query| - start
      {
        var p := ParseSegment(query, start, end);
        ghost var before := Contents();
        PutParameter(p);
        ParseNext(query, start, end);
        if end == |query| {
          return;
        }
        start := end + 1;
        end := Seek(query, start, '&');
        assert before + ([p] + Parse(query[start..])) == (before + [p]) + Parse(query[start..]);
      }
    }

    /** The part of `query_parse` that makes one parameter. */
    static method ParseSegment(query: string, start: nat, end: nat) returns (p: Parameter)
      requires start <= end <= |query|
      ensures p == Split(query[start..end])
    {
      var separator := Seek(query, start, '=');
      assert query[start..][..end - start] == query[start..end];
      if separator > end {
        separator := end;
      }
      Separator(query[start..], end - start);
      var key := query[start..separator];
      if separator != end {
        separator := separator + 1;
      }
      var value := if separator == end then "" else query[separator..end];
      p := Parameter(key, value);
    }

    static lemma Separator(s: string, n: nat)
      requires n <= |s|
      ensures Find(s[..n], '=') == if Find(s, '=') > n then n else Find(s, '=')
    {
      var k := Find(s, '=');
      var m := if k > n then n else k;
      assert forall c | c in s[..n][..m] :: c in s[..k];
      FindIs(s[..n], '=', m);
    }

    static lemma ParseNext(query: string, start: nat, end: nat)
      requires start <= |query| && end == start + Find(query[start..], '&')
      ensures Parse(query[start..]) ==
              [Split(query[start..end])] + if end == |query| then [] else Parse(query[end + 1..])
    {
      hide Find, Split, Parse;
      var k := end - start;
      ParseStep(query[start..]);
      assert query[start..][..k] == query[start..end];
      if end < |query| {
        assert query[start..][k + 1..] == query[end + 1..];
      }
    }
  }
}
