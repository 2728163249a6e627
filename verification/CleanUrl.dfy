/** Cleaning a URL when no rule applies: parse, rewrite the query, print (src/clean_url.c, lines 25-292). */
module CleanUrl {
  import opened Base
  import opened Query
  import opened CleanQuery
  import Uri
  import UriLaws

  /** The record with its query rewritten, if it has one. */
  function CleanRecord(u: Uri.Record, f: Flags): Uri.Record {
    if u.query == "" then u else u.(query := Rewrite(u.query, f))
  }

  function Clean(url: string, isIpv6: string -> bool, f: Flags): Uri.Result<string> {
    match Uri.Parse(url, isIpv6)
    case Err(e) => Uri.Err(e)
    case Ok(u) => Uri.Ok(Uri.Print(CleanRecord(u, f)))
  }

  // ----- rewriting brings in no new characters -----

  /** A character that is neither in q nor one of the two separators. */
  predicate Foreign(c: char, q: string) {
    c !in q && c != '&' && c != '='
  }

  predicate Without(c: char, p: Parameter) {
    c !in p.key && c !in p.value
  }

  lemma SplitWithout(seg: string, c: char)
    requires c !in seg
    ensures Without(c, Split(seg))
  {
    var k := Find(seg, '=');
    assert forall x | x in seg[..k] :: x in seg;
    if k < |seg| {
      assert forall x | x in seg[k + 1..] :: x in seg;
    }
  }

  lemma {:induction false} ParseWithout(q: string, c: char)
    requires c !in q
    ensures forall i | 0 <= i < |Parse(q)| :: Without(c, Parse(q)[i])
    decreases |q|
  {
    hide Find, Split, Without, Parse;
    var k := Find(q, '&');
    ParseStep(q);
    assert forall x | x in q[..k] :: x in q;
    SplitWithout(q[..k], c);
    if k < |q| {
      assert forall x | x in q[k + 1..] :: x in q;
      ParseWithout(q[k + 1..], c);
    }
  }

  lemma {:induction false} PrintWithout(ps: seq<Parameter>, c: char)
    requires c != '&' && c != '=' && forall i | 0 <= i < |ps| :: Without(c, ps[i])
    ensures c !in Print(ps)
    decreases |ps|
  {
    if ps != [] {
      assert ps == [ps[0]] + ps[1..];
      PrintStep(ps[0], ps[1..]);
      PrintWithout(ps[1..], c);
      assert c !in Piece(ps[0]);
    }
  }

  lemma RewriteWithout(q: string, f: Flags, c: char)
    requires Foreign(c, q)
    ensures c !in Rewrite(q, f)
  {
    hide Parse, Print, Without, Survivors;
    ParseWithout(q, c);
    PrintWithout(Kept(Parse(q), f), c);
  }

  // ----- cleaning twice -----

  /** Without user information, there is no '@' after the host. */
  predicate NoStrayAt(u: Uri.Record) {
    !u.auth ==> '@' !in u.path + u.query + u.fragment
  }

  /** A cleaned record can be read back from its text, unless there is a fragment without a query: because there was no
      query, or because no parameter is left. */
  lemma CleanedIsCanonical(url: string, u: Uri.Record, isIpv6: string -> bool, f: Flags)
    requires Uri.Parse(url, isIpv6) == Uri.Ok(u) && NoStrayAt(u)
    ensures var v := CleanRecord(u, f);
            && UriLaws.Sane(v, isIpv6) && NoStrayAt(v) && '?' !in v.path
            && (UriLaws.Canonical(v, isIpv6) <==> v.query != "" || u.fragment == "")
  {
    hide UriLaws.GoodScheme, UriLaws.GoodHost, Rewrite, Uri.Parse, Uri.ParseTail, UriLaws.GoodTail;
    var v := CleanRecord(u, f);
    UriLaws.ParsedIsSane(url, isIpv6);
    var hp := TailParsed(url, u, isIpv6);
    UriLaws.ParsedTail(hp);
    if u.query != "" {
      RewriteWithout(u.query, f, '#');
      CleanedTail(Uri.TailOf(u), v.query);
      if !u.auth {
        RewriteWithout(u.query, f, '@');
      }
    }
  }

  lemma TailParsed(url: string, u: Uri.Record, isIpv6: string -> bool) returns (hp: string)
    requires Uri.Parse(url, isIpv6) == Uri.Ok(u)
    ensures Uri.ParseTail(hp) == Uri.Ok(Uri.TailOf(u))
  {
    hide Uri.ParseTail, Uri.ParseAuthority, Uri.ParseUserInfo, Uri.SchemeError;
    hp := Uri.ParseUserInfo(url[Uri.FindSeparator(url).value + 3..]).after;
  }

  lemma CleanedTail(t: Uri.Tail, query: string)
    requires '?' !in t.path && '#' !in t.path && '#' !in query
    ensures UriLaws.GoodTail(t.(query := query)) <==> query != "" || t.fragment == ""
  {
  }

  lemma RecordCleanedTwice(u: Uri.Record, f: Flags)
    ensures CleanRecord(CleanRecord(u, f), f) == CleanRecord(u, f)
  {
    if u.query != "" {
      RewriteTwice(u.query, f);
    }
  }

  // ----- what cleaning does -----

  /** The cleaned text of a URL is that of its record with another query: none when there was none or no parameter
      survives, and otherwise one whose parameters are exactly those that are kept. */
  lemma CleanKeeps(url: string, u: Uri.Record, isIpv6: string -> bool, f: Flags) returns (query: string)
    requires Uri.Parse(url, isIpv6) == Uri.Ok(u)
    ensures Clean(url, isIpv6, f) == Uri.Ok(Uri.Print(u.(query := query)))
    ensures query == "" <==> u.query == "" || !SomeSurvive(Parse(u.query), f)
    ensures query != "" ==> Parse(query) == Kept(Parse(u.query), f)
  {
    hide Uri.Parse, Uri.Print, CleanRecord;
    query := CleanRecord(u, f).query;
    QueryCleaned(u, f);
  }

  lemma QueryCleaned(u: Uri.Record, f: Flags)
    ensures var query := CleanRecord(u, f).query;
            && CleanRecord(u, f) == u.(query := query)
            && (query == "" <==> u.query == "" || !SomeSurvive(Parse(u.query), f))
            && (query != "" ==> Parse(query) == Kept(Parse(u.query), f))
  {
    hide Rewrite, Kept, SomeSurvive;
    SomethingLeft(u.query, f);
    RewriteTwice(u.query, f);
  }

  /** When a parameter survives, the cleaned text reads as the same URL with exactly the parameters that are kept; when
      none does, it is the text of the same URL without a query. */
  lemma CleanMeans(url: string, u: Uri.Record, isIpv6: string -> bool, f: Flags)
    requires UriLaws.AddressCheck(isIpv6) && Uri.Parse(url, isIpv6) == Uri.Ok(u) && NoStrayAt(u)
    ensures var r := Clean(url, isIpv6, f);
            if u.query != "" && SomeSurvive(Parse(u.query), f) then
              && r.Ok? && Uri.Parse(r.value, isIpv6).Ok?
              && var w := Uri.Parse(r.value, isIpv6).value;
                 Parse(w.query) == Kept(Parse(u.query), f) && w == u.(query := w.query)
            else r == Uri.Ok(Uri.Print(u.(query := "")))
  {
    hide Uri.Parse, Uri.Print, Kept, SomeSurvive, CleanRecord, Clean, UriLaws.Canonical, UriLaws.Sane;
    QueryCleaned(u, f);
    CleanTwice(url, u, isIpv6, f);
  }

  // ----- a fragment without a query -----

  /** A record with a fragment and no query. */
  ghost predicate Growing(v: Uri.Record, isIpv6: string -> bool) {
    UriLaws.Sane(v, isIpv6) && NoStrayAt(v) && v.query == "" && v.fragment != "" && '?' !in v.path
  }

  /** What is read from the text of such a record: the path goes on across the fragment, which starts at the first
      '#'. */
  function Misread(v: Uri.Record): Uri.Record {
    var b := v.path + "#" + v.fragment;
    v.(path := b, fragment := Uri.After(b, Find(b, '#')))
  }

  lemma BodyMisread(v: Uri.Record)
    requires '?' !in v.path && v.query == "" && v.fragment != ""
    ensures var r := UriLaws.ParseBody(v.path + "#" + v.fragment);
            if '?' in v.fragment then r.Err? else r == Uri.Ok(Uri.TailOf(Misread(v)))
  {
    hide Find;
    var b := v.path + "#" + v.fragment;
    var q, h := Find(b, '?'), Find(b, '#');
    assert b[|v.path|] == '#';
    FindAtMost(b, '#', |v.path|);
    FindEnd(b, '?');
    assert '?' in b <==> '?' in v.fragment;
    assert b[0..|b|] == b;
    assert forall i | 0 <= i < |v.path| :: b[i] == v.path[i];
  }

  /** The fragment that is read is at least as long, so the text has grown; and it has no new characters. */
  lemma MisreadGrows(v: Uri.Record)
    requires v.fragment != ""
    ensures var w := Misread(v);
            && |Uri.Print(w)| >= |Uri.Print(v)| + 2 && |w.fragment| >= |v.fragment|
            && forall c | c in w.path || c in w.fragment :: c in v.path || c in v.fragment || c == '#'
  {
    hide Find, Uri.HostPortText;
    var b := v.path + "#" + v.fragment;
    assert b[|v.path|] == '#';
    FindAtMost(b, '#', |v.path|);
    var w := Misread(v);
    assert forall c | c in w.fragment :: c in b;
    PrintSize(v);
    PrintSize(w);
    SameBefore(v, w.path, w.fragment);
  }

  lemma SameBefore(v: Uri.Record, path: string, fragment: string)
    ensures var w := v.(path := path, fragment := fragment);
            Uri.SchemeText(w) == Uri.SchemeText(v) && Uri.UserText(w) == Uri.UserText(v)
              && Uri.HostPortText(w) == Uri.HostPortText(v)
  {
  }

  lemma PrintSize(u: Uri.Record)
    requires u.fragment != ""
    ensures |Uri.Print(u)| == |Uri.SchemeText(u)| + |Uri.UserText(u)| + |Uri.HostPortText(u)| + 1 + |u.path|
                              + (if u.query == "" then 0 else 1 + |u.query|) + 1 + |u.fragment|
  {
    hide Uri.HostPortText;
  }

  /** Cleaning the text of such a record gives a longer text, of a record of the same kind; or it fails, when there is a
      '?' in the fragment. */
  lemma FragmentGrows(v: Uri.Record, isIpv6: string -> bool, f: Flags)
    requires UriLaws.AddressCheck(isIpv6) && Growing(v, isIpv6)
    ensures var r := Clean(Uri.Print(v), isIpv6, f); var w := Misread(v);
            if '?' in v.fragment then r.Err?
            else
              && Uri.Parse(Uri.Print(v), isIpv6) == Uri.Ok(w) && r == Uri.Ok(Uri.Print(w))
              && |Uri.Print(w)| >= |Uri.Print(v)| + 2 && Growing(w, isIpv6) && '?' !in w.fragment
  {
    hide UriLaws.GoodScheme, UriLaws.GoodHost, Uri.Parse, Uri.Print, Uri.ParseTail, UriLaws.ParseBody, Uri.HostPortText,
         Misread;
    UriLaws.AfterUserText(v, isIpv6);
    UriLaws.SaneReadBack(v, isIpv6);
    var b := v.path + "#" + v.fragment;
    assert Uri.TailText(Uri.TailOf(v)) == b;
    UriLaws.TailShift(Uri.HostPortText(v), b);
    BodyMisread(v);
    MisreadGrows(v);
    MisreadKeeps(v);
  }

  lemma MisreadKeeps(v: Uri.Record)
    ensures Misread(v) == v.(path := Misread(v).path, fragment := Misread(v).fragment)
  {
  }

  /** Cleaning n times in a row. */
  function CleanTimes(url: string, isIpv6: string -> bool, f: Flags, n: nat): Uri.Result<string>
    decreases n
  {
    if n == 0 then Uri.Ok(url)
    else
      match Clean(url, isIpv6, f)
      case Err(e) => Uri.Err(e)
      case Ok(cleaned) => CleanTimes(cleaned, isIpv6, f, n - 1)
  }

  /** The text grows each time it is cleaned, without limit. */
  lemma {:induction false} GrowsForever(v: Uri.Record, isIpv6: string -> bool, f: Flags, n: nat)
    requires UriLaws.AddressCheck(isIpv6) && Growing(v, isIpv6) && '?' !in v.fragment
    ensures var r := CleanTimes(Uri.Print(v), isIpv6, f, n); r.Ok? && |r.value| >= |Uri.Print(v)| + 2 * n
    decreases n
  {
    hide Uri.Print, Uri.Parse, Clean, Growing, Misread, UriLaws.AddressCheck;
    if n > 0 {
      FragmentGrows(v, isIpv6, f);
      GrowsForever(Misread(v), isIpv6, f, n - 1);
    }
  }

  /** Cleaning any URL twice is like cleaning it once, and the cleaned URL reads as the cleaned record, exactly when it
      has no fragment, or a query is left. */
  lemma CleanTwice(url: string, u: Uri.Record, isIpv6: string -> bool, f: Flags)
    requires UriLaws.AddressCheck(isIpv6) && Uri.Parse(url, isIpv6) == Uri.Ok(u) && NoStrayAt(u)
    ensures var r := Clean(url, isIpv6, f);
            && r == Uri.Ok(Uri.Print(CleanRecord(u, f)))
            && (Clean(r.value, isIpv6, f) == r <==> CleanRecord(u, f).query != "" || u.fragment == "")
            && (Uri.Parse(r.value, isIpv6) == Uri.Ok(CleanRecord(u, f)) <==>
                CleanRecord(u, f).query != "" || u.fragment == "")
  {
    hide Uri.Parse, Uri.Print, UriLaws.Sane, UriLaws.Canonical, Rewrite, Misread;
    var v := CleanRecord(u, f);
    CleanedIsCanonical(url, u, isIpv6, f);
    UriLaws.ParseUndoesPrint(v, isIpv6);
    RecordCleanedTwice(u, f);
    if v.query == "" && u.fragment != "" {
      FragmentGrows(v, isIpv6, f);
    }
  }
}
