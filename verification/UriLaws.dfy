/** Parsing a printed URI gives the record back, exactly for canonical records. */
module UriLaws {
  import opened Base
  import Literals
  import Query
  import opened Uri

  /** An address check that accepts only hexadecimal digits, ':' and '.'. */
  ghost predicate AddressCheck(isIpv6: string -> bool) {
    forall h: string | isIpv6(h) :: AddressChars(h)
  }

  predicate AddressChars(h: string) {
    forall i | 0 <= i < |h| :: Literals.HexVal(h[i]) >= 0 || h[i] == ':' || h[i] == '.'
  }

  // ----- canonical records -----

  predicate GoodScheme(s: string) {
    s != "" && IsAlpha(s[0]) && (forall i | 0 <= i < |s| :: SchemeChar(s[i])) && Lowered(s) == s
  }

  predicate GoodUser(u: Record) {
    && ':' !in u.username && '@' !in u.username && '@' !in u.password
    && (u.auth <==> u.username != "" || u.password != "")
  }

  predicate GoodHost(h: string, ipv6: bool, isIpv6: string -> bool) {
    if ipv6 then 2 <= |h| <= 39 && isIpv6(h)
    else 4 <= |h| <= 253 && GoodLabels(h) && Lowered(h) == h
  }

  /** The path ends before '?' and '#', and the query before '#'. Without a query there is no fragment; only then, the
      path may end with '#', which counts as an empty fragment. */
  predicate GoodTail(t: Tail) {
    && '?' !in t.path && '#' !in t.query
    && (t.query == "" ==> t.fragment == "" && (t.path != "" ==> '#' !in t.path[..|t.path| - 1]))
    && (t.query != "" ==> '#' !in t.path)
  }

  /** What holds of every record that parsing gives. */
  predicate Sane(u: Record, isIpv6: string -> bool) {
    GoodScheme(u.scheme) && GoodUser(u) && GoodHost(u.host, u.ipv6, isIpv6) && 0 <= u.port <= 65535
  }

  predicate Canonical(u: Record, isIpv6: string -> bool) {
    Sane(u, isIpv6) && GoodTail(TailOf(u)) && (!u.auth ==> '@' !in u.path + u.query + u.fragment)
  }

  // ----- hosts -----

  /** Characters of hosts, with the brackets that may surround them, and of ports. */
  predicate HostChar(c: char) {
    LabelChar(c) || c == '.'
  }

  /** A host without errors has only characters of labels, and dots. */
  lemma {:induction false} HostChars(h: string, i: nat, start: nat)
    requires start <= i <= |h| && HostError(h, i, start).None?
    ensures forall j | i <= j < |h| :: HostChar(h[j])
    decreases |h| - i
  {
    if i < |h| {
      HostChars(h, i + 1, if h[i] == '.' then i + 1 else start);
    }
  }

  /** Lowering a host does not change how it is scanned. */
  lemma {:induction false} HostErrorLowered(h: string, i: nat, start: nat)
    requires start <= i <= |h|
    ensures HostError(Lowered(h), i, start) == HostError(h, i, start)
    decreases |h| - i
  {
    LoweredTwice(h);
    if i < |h| {
      HostErrorLowered(h, i + 1, i + 1);
      HostErrorLowered(h, i + 1, start);
    }
  }

  /** A label of a host name. */
  predicate GoodLabel(l: string) {
    1 <= |l| <= 63 && l[0] != '-' && l[|l| - 1] != '-' && forall i | 0 <= i < |l| :: LabelChar(l[i])
  }

  predicate GoodLabels(h: string) {
    var k := Query.Find(h, '.');
    GoodLabel(h[..k]) && (k < |h| ==> GoodLabels(h[k + 1..]))
  }

  /** The scan at the end of a label. */
  lemma ScanEnd(h: string, i: nat, start: nat)
    requires start <= i <= |h| && (i == |h| || h[i] == '.')
    ensures HostError(h, i, start).None? <==>
            1 <= i - start <= 63 && h[i - 1] != '-' && (i < |h| ==> HostError(h, i + 1, i + 1).None?)
  {
  }

  /** The scan inside a label. */
  lemma ScanInside(h: string, i: nat, start: nat)
    requires start <= i < |h| && h[i] != '.'
    ensures HostError(h, i, start).None? <==>
            LabelChar(h[i]) && (i == start ==> h[i] != '-') && HostError(h, i + 1, start).None?
  {
  }

  /** The scan of a label that ends at end, from a position inside it. */
  lemma {:induction false} LabelScan(h: string, i: nat, start: nat, end: nat)
    requires start <= i <= end <= |h| && '.' !in h[start..end] && (end == |h| || h[end] == '.')
    ensures HostError(h, i, start).None? <==>
              && (forall j | i <= j < end :: LabelChar(h[j])) && (i == start < end ==> h[start] != '-')
              && 1 <= end - start <= 63 && h[end - 1] != '-' && (end < |h| ==> HostError(h, end + 1, end + 1).None?)
    decreases end - i
  {
    hide HostError;
    if i == end {
      ScanEnd(h, i, start);
    } else {
      assert h[i] == h[start..end][i - start];
      ScanInside(h, i, start);
      LabelScan(h, i + 1, start, end);
    }
  }

  lemma LabelIs(h: string, start: nat, end: nat)
    requires start <= end <= |h|
    ensures GoodLabel(h[start..end]) <==>
              (forall j | start <= j < end :: LabelChar(h[j])) && 1 <= end - start <= 63 && h[start] != '-'
                && h[end - 1] != '-'
  {
    var part := h[start..end];
    assert forall j | start <= j < end :: part[j - start] == h[j];
    assert forall j | 0 <= j < |part| :: part[j] == h[start + j];
  }

  /** A host is accepted exactly when its labels are good: 1 to 63 letters, digits and inner hyphens. */
  lemma {:induction false} HostAccepted(h: string, start: nat)
    requires start <= |h|
    ensures HostError(h, start, start).None? <==> GoodLabels(h[start..])
    decreases |h| - start
  {
    hide HostError, Query.Find, GoodLabel;
    var rest := h[start..];
    var k := Query.Find(rest, '.');
    var end := start + k;
    assert rest[..k] == h[start..end];
    LabelScan(h, start, start, end);
    LabelIs(h, start, end);
    if k < |rest| {
      HostAccepted(h, end + 1);
      assert rest[k + 1..] == h[end + 1..];
    }
  }

  lemma HostAcceptedWhole(h: string)
    ensures HostError(h, 0, 0).None? <==> GoodLabels(h)
  {
    HostAccepted(h, 0);
    assert h[0..] == h;
  }

  // ----- every parsed record is sane -----

  lemma UserInfoSane(s: string)
    ensures var i := ParseUserInfo(s); ':' !in i.username && '@' !in i.username && '@' !in i.password
  {
    var at, colon := Query.Find(s, '@'), Query.Find(s, ':');
    var separator := Min(colon, at);
    assert forall c | c in s[..separator] :: c in s[..at] && c in s[..colon];
    if at < |s| && separator < at {
      assert forall c | c in s[separator + 1..at] :: c in s[..at];
    }
  }

  lemma AuthoritySane(hp: string, isIpv6: string -> bool)
    ensures var r := ParseAuthority(hp, isIpv6);
            r.Ok? ==> GoodHost(r.value.host, r.value.ipv6, isIpv6) && 0 <= r.value.port <= 65535
  {
    var r := ParseAuthority(hp, isIpv6);
    if r.Ok? && !r.value.ipv6 {
      var host := HostText(hp, None);
      HostErrorLowered(host, 0, 0);
      HostAcceptedWhole(Lowered(host));
      LoweredTwice(host);
    }
  }

  lemma SchemeSane(s: string)
    requires SchemeError(s).None?
    ensures GoodScheme(Lowered(s))
  {
    LoweredTwice(s);
  }

  /** Whatever is parsed, the result has a valid lower-case scheme and host, and a port in range. */
  lemma ParsedIsSane(s: string, isIpv6: string -> bool)
    ensures Parse(s, isIpv6).Ok? ==> Sane(Parse(s, isIpv6).value, isIpv6)
  {
    hide GoodScheme, GoodHost, ParseUserInfo, ParseAuthority, ParseTail, SchemeError, Lowered;
    if Parse(s, isIpv6).Ok? {
      var k := FindSeparator(s).value;
      SchemeSane(s[..k]);
      UserInfoSane(s[k + 3..]);
      AuthoritySane(ParseUserInfo(s[k + 3..]).after, isIpv6);
    }
  }

  // ----- sizes that would be negative -----

  /** '?' after '#', or '/' after '?'. */
  predicate OutOfOrder(hp: string) {
    var slash, q, f := Query.Find(hp, '/'), Query.Find(hp, '?'), Query.Find(hp, '#');
    f < q < |hp| || q < slash < |hp|
  }

  /** Copying a part of the text takes a negative size exactly when the marks are out of order. */
  lemma TailError(hp: string)
    ensures ParseTail(hp).Err? <==> OutOfOrder(hp)
    ensures ParseTail(hp).Err? ==> ParseTail(hp) == Err(NegativeSize)
  {
    hide Query.Find;
    var slash, q, f := Query.Find(hp, '/'), Query.Find(hp, '?'), Query.Find(hp, '#');
    assert slash < |hp| ==> hp[slash] == '/';
    assert q < |hp| ==> hp[q] == '?';
    assert f < |hp| ==> hp[f] == '#';
  }

  lemma {:induction false} HostErrorKind(h: string, i: nat, start: nat)
    requires start <= i <= |h|
    ensures HostError(h, i, start) != Some(NegativeSize)
    decreases |h| - i
  {
    if i < |h| {
      HostErrorKind(h, i + 1, i + 1);
      HostErrorKind(h, i + 1, start);
    }
  }

  lemma AuthorityErrorKind(hp: string, isIpv6: string -> bool)
    ensures ParseAuthority(hp, isIpv6) != Err(NegativeSize)
  {
    var close := if Opens(hp) then Some(Query.Find(hp, ']')) else None;
    if close.None? || close.value < |hp| {
      HostErrorKind(HostText(hp, close), 0, 0);
    }
  }

  /** The source takes a negative size exactly for texts with an accepted scheme and authority whose marks are out of
      order. */
  lemma NegativeSizeExactly(s: string, isIpv6: string -> bool)
    ensures Parse(s, isIpv6) == Err(NegativeSize) <==>
              && FindSeparator(s).Some? && SchemeError(s[..FindSeparator(s).value]).None?
              && var hp := ParseUserInfo(s[FindSeparator(s).value + 3..]).after;
                 ParseAuthority(hp, isIpv6).Ok? && OutOfOrder(hp)
  {
    hide ParseUserInfo, ParseAuthority, ParseTail, OutOfOrder, Lowered;
    if FindSeparator(s).Some? {
      var hp := ParseUserInfo(s[FindSeparator(s).value + 3..]).after;
      TailError(hp);
      AuthorityErrorKind(hp, isIpv6);
    }
  }

  /** Only behind an IPv6 address can '/' come after '?': it would be part of any other host, or of the port. */
  lemma SlashAfterQuestion(hp: string, isIpv6: string -> bool)
    requires ParseAuthority(hp, isIpv6).Ok? && Query.Find(hp, '?') < Query.Find(hp, '/') < |hp|
    ensures Opens(hp) && ParseAuthority(hp, isIpv6).value.ipv6
  {
    if !Opens(hp) {
      QuestionInHost(hp);
      var host, colon := HostText(hp, None), PortColon(hp, None);
      if '?' in host {
        NoQuestion(host);
      } else {
        PortQuestion(hp, colon);
      }
      assert false;
    }
  }

  /** The '?' is part of the host, or of the port. */
  lemma QuestionInHost(hp: string)
    requires Query.Find(hp, '?') < Query.Find(hp, '/') < |hp|
    ensures var colon := PortColon(hp, None);
            '?' in HostText(hp, None) || (HasPort(hp, colon) && '?' in hp[colon + 1..PortEnd(hp).value])
  {
    hide Query.Find;
    var q, slash, colon := Query.Find(hp, '?'), Query.Find(hp, '/'), PortColon(hp, None);
    assert hp[slash] == '/' && hp[q] == '?';
    assert PortEnd(hp) == Some(slash) && HostEnd(hp) == slash;
    if HasPort(hp, colon) {
      assert hp[colon] == ':';
      if q > colon {
        assert hp[colon + 1..slash][q - colon - 1] == '?';
      } else {
        assert hp[..colon][q] == '?';
      }
    } else {
      assert hp[..slash][q] == '?';
    }
  }

  lemma NoQuestion(host: string)
    requires '?' in host
    ensures HostError(host, 0, 0).Some?
  {
    if HostError(host, 0, 0).None? {
      HostChars(host, 0, 0);
      assert false;
    }
  }

  lemma PortQuestion(hp: string, colon: nat)
    requires HasPort(hp, colon) && '?' in hp[colon + 1..PortEnd(hp).value]
    ensures ParsePort(hp, colon).Err?
  {
    var digits := hp[colon + 1..PortEnd(hp).value];
    var i :| 0 <= i < |digits| && digits[i] == '?';
    NotNumeral(digits, i);
  }

  lemma NotNumeral(digits: string, i: nat)
    requires i < |digits| && digits[i] == '?'
    ensures !Literals.IsNumeral(10, digits)
  {
  }

  // ----- reading back, part by part -----

  lemma {:induction false} SeparatorFound(a: string, b: string)
    requires ':' !in a
    ensures FindSeparator(a + ("://" + b)) == Some(|a|)
    decreases |a|
  {
    var s := a + ("://" + b);
    if a == "" {
      assert s[..3] == "://";
    } else {
      assert s[1..] == a[1..] + ("://" + b);
      SeparatorFound(a[1..], b);
      assert s[..3][0] == a[0];
    }
  }

  /** A prefix without the character, and what follows it. */
  lemma FindAfter(a: string, b: string, c: char)
    requires c !in a
    ensures Query.Find(a + b, c) == |a| + Query.Find(b, c)
  {
    var k := Query.Find(b, c);
    assert (a + b)[..|a| + k] == a + b[..k];
    Query.FindIs(a + b, c, |a| + k);
  }

  lemma FindHere(a: string, c: char, b: string)
    requires c !in a
    ensures Query.Find(a + ([c] + b), c) == |a|
  {
    Query.FindIs([c] + b, c, 0);
    FindAfter(a, [c] + b, c);
  }

  lemma FindNone(a: string, c: char)
    requires c !in a
    ensures Query.Find(a, c) == |a|
  {
    Query.FindEnd(a, c);
  }

  /** User information is read back; without it, an '@' later on would be taken for its end. */
  lemma UserReadBack(u: Record, after: string)
    requires GoodUser(u) && (!u.auth ==> '@' !in after)
    ensures ParseUserInfo(UserText(u) + after) == UserInfo(u.username, u.password, after)
  {
    if u.auth {
      var before := u.username + ":" + u.password;
      var s := UserText(u) + after;
      assert s == before + (['@'] + after);
      FindHere(before, '@', after);
      assert s == u.username + ([':'] + (u.password + ['@'] + after));
      FindHere(u.username, ':', u.password + ['@'] + after);
      assert s[..|u.username|] == u.username;
      assert s[|u.username| + 1..|before|] == u.password;
      assert s[|before| + 1..] == after;
    } else {
      assert UserText(u) + after == after;
      FindNone(after, '@');
      assert u.username == "" && u.password == "";
    }
  }

  // ----- host and port are read back -----

  /** No character that ends a host or a port, or the user information. */
  predicate Plain(s: string) {
    '/' !in s && '?' !in s && '#' !in s && '@' !in s
  }

  function BracketedHost(u: Record): string {
    if u.ipv6 then "[" + u.host + "]" else u.host
  }

  function PortText(u: Record): string {
    if u.port > 0 then ":" + Literals.Numeral(10, u.port) else ""
  }

  lemma NumeralChars(v: nat)
    ensures var d := Literals.Numeral(10, v);
            Plain(d) && ':' !in d && d != "" && Literals.IsNumeral(10, d) && Literals.Value(10, d) == v
  {
    hide Literals.Numeral;
    Literals.NumeralValue(10, v);
    var d := Literals.Numeral(10, v);
    forall i | 0 <= i < |d| ensures '0' <= d[i] <= '9' {
      assert Literals.IsDigit(10, d[i]);
    }
  }

  lemma HostTextChars(u: Record, isIpv6: string -> bool)
    requires AddressCheck(isIpv6) && GoodHost(u.host, u.ipv6, isIpv6)
    ensures u.host != "" && Plain(BracketedHost(u))
    ensures u.ipv6 ==> ']' !in u.host && '[' !in u.host
    ensures !u.ipv6 ==> ':' !in u.host && u.host[0] != '['
  {
    if u.ipv6 {
      assert AddressChars(u.host);
    } else {
      HostAcceptedWhole(u.host);
      HostChars(u.host, 0, 0);
    }
  }

  lemma TextIs(u: Record)
    requires u.host != ""
    ensures HostPortText(u) == BracketedHost(u) + PortText(u)
  {
  }

  /** The port, once its colon has been found. */
  lemma PortReadBack(u: Record, colon: nat, after: string)
    requires 0 <= u.port <= 65535 && Plain(BracketedHost(u)) && u.host != ""
    requires if u.port > 0 then colon == |BracketedHost(u)| else colon >= |BracketedHost(u)|
    ensures var hp := HostPortText(u) + ("/" + after);
            && PortEnd(hp) == Some(|HostPortText(u)|) && HostEnd(hp) == |HostPortText(u)|
            && (HasPort(hp, colon) <==> u.port > 0) && ParsePort(hp, colon) == Ok(u.port)
  {
    hide Literals.Numeral, Literals.Value, Literals.IsNumeral;
    TextIs(u);
    NumeralChars(if u.port > 0 then u.port else 0);
    var text := HostPortText(u);
    var hp := text + ("/" + after);
    assert '/' !in text;
    FindHere(text, '/', after);
    assert "/" + after == ['/'] + after;
    assert hp[|text|] == '/';
    if u.port > 0 {
      assert hp[colon + 1..|text|] == Literals.Numeral(10, u.port);
    }
  }

  /** The colon before a port. */
  lemma RestColon(u: Record, after: string)
    ensures u.port > 0 ==> Query.Find(PortText(u) + ("/" + after), ':') == 0
  {
    hide Literals.Numeral;
    if u.port > 0 {
      Query.FindIs(PortText(u) + ("/" + after), ':', 0);
    }
  }

  /** Where the colon is. */
  lemma ColonFound(u: Record, after: string)
    requires u.host != "" && ':' !in u.host && u.host[0] != '[' && !u.ipv6
    ensures var hp := HostPortText(u) + ("/" + after);
            !Opens(hp) && if u.port > 0 then PortColon(hp, None) == |u.host| else PortColon(hp, None) >= |u.host|
  {
    hide PortText, Query.Find;
    TextIs(u);
    var rest := PortText(u) + ("/" + after);
    assert HostPortText(u) + ("/" + after) == u.host + rest;
    FindAfter(u.host, rest, ':');
    RestColon(u, after);
  }

  lemma BracketFound(u: Record, after: string)
    requires u.host != "" && ']' !in u.host && u.ipv6
    ensures var hp, close := HostPortText(u) + ("/" + after), |u.host| + 1;
            && Query.Find(hp, ']') == close < |hp| && Opens(hp)
            && if u.port > 0 then PortColon(hp, Some(close)) == close + 1 else PortColon(hp, Some(close)) >= close + 1
  {
    hide PortText, Query.Find, HostPortText, BracketedHost;
    var rest := PortText(u) + ("/" + after);
    var open := "[" + u.host;
    var hp := HostPortText(u) + ("/" + after);
    assert hp == open + ([']'] + rest) by {
      BracketText(u);
    }
    FindHere(open, ']', rest);
    assert hp[|open|..] == [']'] + rest;
    FindAfter([']'], rest, ':');
    RestColon(u, after);
  }

  lemma BracketText(u: Record)
    requires u.host != "" && u.ipv6
    ensures HostPortText(u) == "[" + u.host + [']'] + PortText(u)
  {
    TextIs(u);
  }

  lemma AuthorityReadBack(u: Record, isIpv6: string -> bool, after: string)
    requires AddressCheck(isIpv6) && GoodHost(u.host, u.ipv6, isIpv6) && 0 <= u.port <= 65535
    ensures ParseAuthority(HostPortText(u) + ("/" + after), isIpv6) == Ok(Authority(u.host, u.ipv6, u.port))
  {
    hide Literals.Numeral, HasPort, ParsePort, PortColon, HostEnd, PortEnd, GoodLabels, Query.Find;
    HostTextChars(u, isIpv6);
    if u.ipv6 {
      BracketFound(u, after);
    } else {
      ColonFound(u, after);
    }
    TextIs(u);
    var hp := HostPortText(u) + ("/" + after);
    var close := if u.ipv6 then Some(|u.host| + 1) else None;
    PortReadBack(u, PortColon(hp, close), after);
    if u.ipv6 {
      assert hp[1..close.value] == u.host;
    } else {
      assert hp[..|u.host|] == u.host;
      HostAcceptedWhole(u.host);
    }
    assert HostText(hp, close) == u.host;
  }

  // ----- path, query and fragment are read back -----

  /** `ParseTail`, from the position after the slash. */
  function ParseBody(b: string): Result<Tail> {
    var q, f := Query.Find(b, '?'), Query.Find(b, '#');
    Combine(if q == |b| then Ok("") else Between(b, q + 1, f), Between(b, 0, q), After(b, f))
  }

  lemma TailShift(prefix: string, b: string)
    requires Plain(prefix)
    ensures ParseTail(prefix + ("/" + b)) == ParseBody(b)
  {
    hide Query.Find, Between, Combine, After;
    var hp := prefix + ("/" + b);
    var n := |prefix| + 1;
    assert "/" + b == ['/'] + b;
    FindHere(prefix, '/', b);
    ShiftFind(prefix, b, '?');
    ShiftFind(prefix, b, '#');
    var q, f := Query.Find(b, '?'), Query.Find(b, '#');
    ShiftBetween(prefix, b, 0, q);
    if q < |b| {
      ShiftBetween(prefix, b, q + 1, f);
    }
    ShiftAfter(prefix, b, f);
  }

  lemma ShiftAfter(prefix: string, b: string, k: nat)
    requires k <= |b|
    ensures After(prefix + ("/" + b), |prefix| + 1 + k) == After(b, k)
  {
    if k < |b| {
      assert (prefix + ("/" + b))[|prefix| + 1 + k + 1..] == b[k + 1..];
    }
  }

  lemma ShiftFind(prefix: string, b: string, c: char)
    requires c !in prefix && c != '/'
    ensures Query.Find(prefix + ("/" + b), c) == |prefix| + 1 + Query.Find(b, c)
  {
    assert prefix + ("/" + b) == (prefix + "/") + b;
    FindAfter(prefix + "/", b, c);
  }

  lemma ShiftBetween(prefix: string, b: string, from: nat, to: nat)
    requires to <= |b|
    ensures Between(prefix + ("/" + b), |prefix| + 1 + from, |prefix| + 1 + to) == Between(b, from, to)
  {
    if from <= to {
      assert (prefix + ("/" + b))[|prefix| + 1 + from..|prefix| + 1 + to] == b[from..to];
    }
  }

  lemma FindFirst(a: string, c: char, b: string)
    ensures Query.Find(a + ([c] + b), c) == |a| <==> c !in a
  {
    if c !in a {
      FindHere(a, c, b);
    } else {
      var i :| 0 <= i < |a| && a[i] == c;
      Query.FindAtMost(a + ([c] + b), c, i);
    }
  }

  /** Nothing but a path, possibly with '#' at its end. */
  lemma PathExact(path: string)
    ensures ParseBody(path) == Ok(Tail(path, "", "")) <==> GoodTail(Tail(path, "", ""))
  {
    hide Query.Find;
    var q, f := Query.Find(path, '?'), Query.Find(path, '#');
    Query.FindEnd(path, '?');
    Query.FindEnd(path, '#');
    assert path[0..|path|] == path && |path[0..q]| == q;
    assert f < |path| ==> |After(path, f)| == |path| - f - 1;
    if path != "" {
      LastOnly(path, '#');
    }
  }

  lemma LastOnly(s: string, c: char)
    requires s != ""
    ensures Query.Find(s, c) >= |s| - 1 <==> c !in s[..|s| - 1]
  {
    var n := |s| - 1;
    if c in s[..n] {
      var i :| 0 <= i < n && s[..n][i] == c;
      Query.FindAtMost(s, c, i);
    } else {
      assert forall i | 0 <= i < n :: s[i] == s[..n][i];
    }
  }

  /** A query, with or without a fragment; rest is what follows it. */
  lemma QueryExact(path: string, query: string, fragment: string)
    requires query != ""
    ensures ParseBody(TailText(Tail(path, query, fragment))) == Ok(Tail(path, query, fragment)) <==>
            GoodTail(Tail(path, query, fragment))
  {
    hide Query.Find, ParseBody;
    var rest := if fragment == "" then "" else "#" + fragment;
    var b := TailText(Tail(path, query, fragment));
    assert b == path + (['?'] + (query + rest)) && b == (path + "?" + query) + rest;
    FindFirst(path, '?', query + rest);
    FragmentFound(path + "?" + query, fragment);
    QueryParts(b, path, query, fragment);
    assert '#' !in path + "?" + query <==> '#' !in path && '#' !in query;
  }

  /** The parts are the right ones exactly when both marks are found where they were printed. */
  lemma QueryParts(b: string, path: string, query: string, fragment: string)
    requires query != "" && b == (path + "?" + query) + if fragment == "" then "" else "#" + fragment
    ensures ParseBody(b) == Ok(Tail(path, query, fragment)) <==>
              Query.Find(b, '?') == |path| && Query.Find(b, '#') == |path + "?" + query|
  {
    hide Query.Find;
    var q, f, n := Query.Find(b, '?'), Query.Find(b, '#'), |path + "?" + query|;
    assert b[..|path|] == path && b[|path| + 1..n] == query;
    assert fragment != "" ==> b[n + 1..] == fragment;
    assert |b[..q]| == q;
    assert q + 1 <= f <= |b| ==> |b[q + 1..f]| == f - q - 1;
  }

  lemma FragmentFound(a: string, fragment: string)
    ensures var b := a + if fragment == "" then "" else "#" + fragment;
            Query.Find(b, '#') == |a| <==> '#' !in a
  {
    if fragment != "" {
      assert "#" + fragment == ['#'] + fragment;
      FindFirst(a, '#', fragment);
    } else {
      assert a + "" == a;
      Query.FindEnd(a, '#');
    }
  }

  /** A fragment without a query is never read back: the path swallows it. */
  lemma FragmentAlone(path: string, fragment: string)
    requires fragment != ""
    ensures ParseBody(TailText(Tail(path, "", fragment))) != Ok(Tail(path, "", fragment))
  {
    var b := TailText(Tail(path, "", fragment));
    assert b == path + "#" + fragment;
    var q := Query.Find(b, '?');
    assert b[|path|] == '#';
    assert |b[..q]| == q;
  }

  /** Path, query and fragment are read back exactly when they are canonical. */
  lemma TailExact(prefix: string, t: Tail)
    requires Plain(prefix)
    ensures ParseTail(prefix + ("/" + TailText(t))) == Ok(t) <==> GoodTail(t)
  {
    hide ParseTail, ParseBody;
    TailShift(prefix, TailText(t));
    if t.query != "" {
      QueryExact(t.path, t.query, t.fragment);
    } else if t.fragment != "" {
      FragmentAlone(t.path, t.fragment);
    } else {
      assert TailText(t) == t.path;
      PathExact(t.path);
    }
  }

  /** What holds of every path, query and fragment that parsing gives. They can be read back, unless there is a fragment
      without a query. */
  lemma ParsedTail(hp: string)
    requires ParseTail(hp).Ok?
    ensures var t := ParseTail(hp).value;
            && '?' !in t.path && '#' !in t.query && (t.query != "" ==> '#' !in t.path)
            && (GoodTail(t) <==> t.query != "" || t.fragment == "")
  {
    hide Query.Find;
    var slash, q, f := Query.Find(hp, '/'), Query.Find(hp, '?'), Query.Find(hp, '#');
    var t := ParseTail(hp).value;
    assert forall i | 0 <= i < |t.path| :: t.path[i] == hp[slash + 1 + i] && slash + 1 + i < q;
    assert forall i | 0 <= i < |t.query| :: t.query[i] == hp[q + 1 + i] && q + 1 + i < f;
    TailError(hp);
    if t.fragment == "" && t.query == "" && t.path != "" {
      assert f >= |hp| - 1;
    }
  }

  // ----- the whole URI -----

  /** Without user information, an '@' anywhere after the scheme makes the host a user name. */
  lemma AtMisread(s: string)
    requires s != "" && s[0] != ':' && s[0] != '@' && '@' in s
    ensures ParseUserInfo(s).username != ""
  {
    Query.FindEnd(s, '@');
  }

  lemma AfterUserText(u: Record, isIpv6: string -> bool)
    requires AddressCheck(isIpv6) && Sane(u, isIpv6)
    ensures Plain(HostPortText(u)) && AfterUser(u) != "" && AfterUser(u)[0] != ':' && AfterUser(u)[0] != '@'
    ensures '@' in AfterUser(u) <==> '@' in u.path + u.query + u.fragment
  {
    hide Literals.Numeral, GoodLabels;
    HostTextChars(u, isIpv6);
    TextIs(u);
    NumeralChars(if u.port > 0 then u.port else 0);
    assert Plain(PortText(u));
    FirstOfHost(u, isIpv6);
    assert AfterUser(u)[0] == BracketedHost(u)[0];
    assert '@' in TailText(TailOf(u)) <==> '@' in u.path + u.query + u.fragment;
  }

  lemma FirstOfHost(u: Record, isIpv6: string -> bool)
    requires AddressCheck(isIpv6) && GoodHost(u.host, u.ipv6, isIpv6)
    ensures BracketedHost(u) != "" && BracketedHost(u)[0] != ':' && BracketedHost(u)[0] != '@'
  {
    HostTextChars(u, isIpv6);
  }

  lemma SchemeReadBack(scheme: string, after: string)
    requires GoodScheme(scheme)
    ensures var s := scheme + "://" + after;
            FindSeparator(s) == Some(|scheme|) && s[..|scheme|] == scheme && s[|scheme| + 3..] == after
    ensures SchemeError(scheme).None?
  {
    var s := scheme + "://" + after;
    assert s == scheme + ("://" + after);
    assert ':' !in scheme;
    SeparatorFound(scheme, after);
  }

  /** What is read back from a sane record, up to the reading of its path, query and fragment. */
  lemma SaneReadBack(u: Record, isIpv6: string -> bool)
    requires AddressCheck(isIpv6) && Sane(u, isIpv6) && (!u.auth ==> '@' !in AfterUser(u))
    ensures Parse(Print(u), isIpv6) ==
              match ParseTail(AfterUser(u))
              case Err(e) => Err(e)
              case Ok(t) => Ok(u.(path := t.path, query := t.query, fragment := t.fragment))
  {
    hide GoodHost, FindSeparator, SchemeError, ParseUserInfo, ParseAuthority, ParseTail, HostPortText, TailText,
         Lowered;
    var after := UserText(u) + AfterUser(u);
    SchemeReadBack(u.scheme, after);
    PrintIs(u);
    UserReadBack(u, AfterUser(u));
    AuthorityReadBack(u, isIpv6, TailText(TailOf(u)));
  }

  /** Parsing undoes printing exactly for canonical records. */
  lemma ParseUndoesPrint(u: Record, isIpv6: string -> bool)
    requires AddressCheck(isIpv6)
    ensures Parse(Print(u), isIpv6) == Ok(u) <==> Canonical(u, isIpv6)
  {
    hide Parse, Print, ParseTail, Sane, GoodTail, HostPortText, TailText;
    ParsedIsSane(Print(u), isIpv6);
    if Sane(u, isIpv6) {
      AfterUserText(u, isIpv6);
      if !u.auth && '@' in AfterUser(u) {
        NoUserMisread(u, isIpv6);
      } else {
        SaneReadBack(u, isIpv6);
        TailExact(HostPortText(u), TailOf(u));
      }
    }
  }

  lemma NoUserMisread(u: Record, isIpv6: string -> bool)
    requires AddressCheck(isIpv6) && Sane(u, isIpv6) && !u.auth && '@' in AfterUser(u)
    ensures Parse(Print(u), isIpv6) != Ok(u)
  {
    hide GoodHost, FindSeparator, SchemeError, ParseUserInfo, ParseAuthority, ParseTail, AfterUser, Lowered, Parse,
         GoodScheme, Print;
    AfterUserText(u, isIpv6);
    SchemeReadBack(u.scheme, AfterUser(u));
    PrintIs(u);
    assert UserText(u) + AfterUser(u) == AfterUser(u);
    AtMisread(AfterUser(u));
    UserOfParsed(Print(u), isIpv6);
  }

  lemma PrintIs(u: Record)
    requires GoodScheme(u.scheme)
    ensures Print(u) == u.scheme + "://" + (UserText(u) + AfterUser(u))
  {
    hide UserText, AfterUser;
  }

  lemma UserOfParsed(s: string, isIpv6: string -> bool)
    ensures Parse(s, isIpv6).Ok? ==>
              FindSeparator(s).Some?
              && Parse(s, isIpv6).value.username == ParseUserInfo(s[FindSeparator(s).value + 3..]).username
              && (Parse(s, isIpv6).value.username != "" ==> Parse(s, isIpv6).value.auth)
  {
    hide SchemeError, ParseUserInfo, ParseAuthority, ParseTail, Lowered;
  }
}
