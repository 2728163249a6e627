/** What texts are read as, character by character (src/uri.c, lines 13-343). */
module UriText {
  import opened Base
  import Literals
  import Query
  import opened Uri
  import opened UriLaws

  // ----- letters -----

  const CAPITALS := "ABCDEFGHIJKLMNOPQRSTUVWXYZ"
  const SMALLS := "abcdefghijklmnopqrstuvwxyz"
  const DIGITS := "0123456789"

  /** Capitals become the small letters at the same place of the alphabet, and every other character is kept. */
  lemma LowerLetters(c: char)
    ensures forall i | 0 <= i < 26 :: Lower(CAPITALS[i]) == SMALLS[i]
    ensures c !in CAPITALS ==> Lower(c) == c
  {
    if IsUpper(c) {
      assert CAPITALS[c as int - 'A' as int] == c;
    }
  }

  /** The characters of schemes and of labels. */
  lemma CharacterClasses(c: char)
    ensures SchemeChar(c) <==> c in CAPITALS || c in SMALLS || c in DIGITS || c in "+.-"
    ensures LabelChar(c) <==> c in CAPITALS || c in SMALLS || c in DIGITS || c == '-'
    ensures IsAlpha(c) <==> c in CAPITALS || c in SMALLS
  {
    InCapitals(c);
    InSmalls(c);
    InDigits(c);
    assert c in "+.-" <==> c == '+' || c == '.' || c == '-' by {
      var marks := "+.-";
      assert marks[0] == '+' && marks[1] == '.' && marks[2] == '-';
    }
  }

  lemma InCapitals(c: char)
    ensures c in CAPITALS <==> 'A' <= c <= 'Z'
  {
    if 'A' <= c <= 'Z' {
      assert CAPITALS[c as int - 'A' as int] == c;
    }
  }

  lemma InSmalls(c: char)
    ensures c in SMALLS <==> 'a' <= c <= 'z'
  {
    if 'a' <= c <= 'z' {
      assert SMALLS[c as int - 'a' as int] == c;
    }
  }

  lemma InDigits(c: char)
    ensures c in DIGITS <==> '0' <= c <= '9'
  {
    if '0' <= c <= '9' {
      assert DIGITS[c as int - '0' as int] == c;
    }
  }

  /** The same character, or a capital and its small letter. */
  predicate IsLowerOf(small: char, c: char) {
    if c in CAPITALS then exists i :: 0 <= i < 26 && CAPITALS[i] == c && SMALLS[i] == small else small == c
  }

  /** Equal, letter by letter, but in small letters. */
  predicate InSmall(small: string, s: string) {
    |small| == |s| && forall i | 0 <= i < |s| :: IsLowerOf(small[i], s[i])
  }

  lemma LoweredIsSmall(s: string)
    ensures InSmall(Lowered(s), s)
  {
    forall i | 0 <= i < |s| ensures IsLowerOf(Lowered(s)[i], s[i]) {
      LowerLetters(s[i]);
      if s[i] in CAPITALS {
        var k :| 0 <= k < 26 && CAPITALS[k] == s[i];
      }
    }
  }

  // ----- scheme and host are read as they are written -----

  /** The part of a text from one position to another. */
  predicate At(s: string, from: nat, part: string) {
    from + |part| <= |s| && s[from..from + |part|] == part
  }

  /** Where the text after the user information starts: after the first '@' behind the scheme, if there is one. */
  function AfterUserAt(s: string, k: nat): nat
    requires k + 3 <= |s|
  {
    var at := Query.Find(s[k + 3..], '@');
    if at == |s| - k - 3 then k + 3 else k + 3 + at + 1
  }

  lemma AfterUserInfo(s: string, k: nat)
    requires k + 3 <= |s|
    ensures AfterUserAt(s, k) <= |s| && s[AfterUserAt(s, k)..] == ParseUserInfo(s[k + 3..]).after
  {
    var t := s[k + 3..];
    var at := Query.Find(t, '@');
    if at < |t| {
      assert t[at + 1..] == s[k + 3 + at + 1..];
    }
  }

  /** What may follow a host. */
  predicate EndsHost(hp: string, n: nat) {
    n == |hp| || (n < |hp| && (hp[n] == ':' || hp[n] == '/' || hp[n] == '?' || hp[n] == '#'))
  }

  /** The host is what is written between brackets, or in small letters what is written up to its end. */
  lemma HostAsWritten(hp: string, isIpv6: string -> bool)
    requires ParseAuthority(hp, isIpv6).Ok?
    ensures var a := ParseAuthority(hp, isIpv6).value; var n := |a.host|;
            if a.ipv6 then n + 2 <= |hp| && hp[0] == '[' && hp[1..n + 1] == a.host && hp[n + 1] == ']'
            else n <= |hp| && InSmall(a.host, hp[..n]) && EndsHost(hp, n) && (hp != "" ==> hp[0] != '[')
  {
    hide Query.Find, HostError;
    var a := ParseAuthority(hp, isIpv6).value;
    if a.ipv6 {
      var close := Query.Find(hp, ']');
      assert hp[1..close] == a.host;
    } else {
      var host := HostText(hp, None);
      LoweredIsSmall(host);
      assert hp[..|host|] == host;
      HostTextEnds(hp);
    }
  }

  lemma HostTextEnds(hp: string)
    ensures EndsHost(hp, |HostText(hp, None)|)
  {
    hide Query.Find;
    var colon, slash, q, f := PortColon(hp, None), Query.Find(hp, '/'), Query.Find(hp, '?'), Query.Find(hp, '#');
    Query.FindEnd(hp, '/');
    Query.FindEnd(hp, '?');
  }

  /** For every accepted text: the scheme is what is written before "://", and the host is what is written after the
      user information, both letter by letter, with capitals made small; an IPv6 address is kept as it is. */
  lemma ReadAsWritten(s: string, isIpv6: string -> bool)
    requires Parse(s, isIpv6).Ok?
    ensures var u := Parse(s, isIpv6).value; var k := |u.scheme|;
            && At(s, k, "://") && InSmall(u.scheme, s[..k])
            && var p := AfterUserAt(s, k); var n := |u.host|;
               if u.ipv6 then At(s, p, "[" + u.host + "]")
               else p + n <= |s| && InSmall(u.host, s[p..p + n]) && EndsHost(s[p..], n)
  {
    hide Parse, ParseAuthority, Lowered, AfterUserAt, InSmall, EndsHost;
    var u := Parse(s, isIpv6).value;
    PartsParsed(s, isIpv6);
    var k, n := |u.scheme|, |u.host|;
    var p := AfterUserAt(s, k);
    LoweredIsSmall(s[..k]);
    HostAsWritten(s[p..], isIpv6);
    if u.ipv6 {
      Bracketed(s, p, u.host);
    } else {
      assert s[p..][..n] == s[p..p + n];
    }
  }

  lemma PartsParsed(s: string, isIpv6: string -> bool)
    requires Parse(s, isIpv6).Ok?
    ensures var u := Parse(s, isIpv6).value; var k := |u.scheme|;
            && At(s, k, "://") && u.scheme == Lowered(s[..k]) && AfterUserAt(s, k) <= |s|
            && var a := ParseAuthority(s[AfterUserAt(s, k)..], isIpv6);
               a.Ok? && a.value.host == u.host && a.value.ipv6 == u.ipv6
  {
    hide ParseUserInfo, ParseAuthority, ParseTail, SchemeError, AfterUserAt;
    AfterUserInfo(s, FindSeparator(s).value);
  }

  lemma Bracketed(s: string, p: nat, host: string)
    requires p + |host| + 2 <= |s|
    requires s[p..][0] == '[' && s[p..][1..|host| + 1] == host && s[p..][|host| + 1] == ']'
    ensures At(s, p, "[" + host + "]")
  {
    var part := s[p..p + |host| + 2];
    forall i | 0 <= i < |part| ensures part[i] == ("[" + host + "]")[i] {
      assert 1 <= i <= |host| ==> s[p..][1..|host| + 1][i - 1] == s[p + i];
    }
  }

  // ----- user information -----

  /** A user name without a password, and with one. */
  lemma UserAsWritten(name: string, password: string, after: string)
    requires ':' !in name && '@' !in name && '@' !in password
    ensures ParseUserInfo(name + (['@'] + after)) == UserInfo(name, "", after)
    ensures ParseUserInfo(name + ([':'] + (password + (['@'] + after)))) == UserInfo(name, password, after)
  {
    FindHere(name, '@', after);
    var s := name + (['@'] + after);
    assert s[..|name|] == name && s[|name| + 1..] == after;
    ColonNotBefore(name, ['@'] + after);
    var rest := password + (['@'] + after);
    var t := name + ([':'] + rest);
    FindHere(name, ':', rest);
    var head := name + ([':'] + password);
    assert t == head + (['@'] + after);
    FindHere(head, '@', after);
    assert t[..|name|] == name && t[|name| + 1..|head|] == password && t[|head| + 1..] == after;
  }

  lemma ColonNotBefore(a: string, b: string)
    requires ':' !in a
    ensures Query.Find(a + b, ':') >= |a|
  {
    FindAfter(a, b, ':');
  }

  // ----- texts without a path -----

  /** An accepted host that is not an IPv6 address. */
  predicate Hostname(host: string) {
    4 <= |host| <= 253 && HostError(host, 0, 0).None?
  }

  lemma HostnamePlain(host: string)
    requires Hostname(host)
    ensures Plain(host) && ':' !in host && host[0] != '['
  {
    HostChars(host, 0, 0);
  }

  function PortSuffix(port: nat): string {
    if port > 0 then ":" + Literals.Numeral(10, port) else ""
  }

  lemma PortSuffixPlain(port: nat)
    ensures Plain(PortSuffix(port))
  {
    hide Literals.Numeral;
    NumeralChars(port);
  }

  /** Nothing, or a fragment. */
  predicate FragmentOnly(rest: string) {
    '/' !in rest && '?' !in rest && (rest != "" ==> rest[0] == '#')
  }

  /** A host and perhaps a port, without a path or a query; a fragment may follow. */
  lemma HostAlone(host: string, port: nat, rest: string, isIpv6: string -> bool)
    requires Hostname(host) && port <= 65535 && FragmentOnly(rest)
    ensures var hp := host + PortSuffix(port) + rest;
            && ParseAuthority(hp, isIpv6) == Ok(Authority(Lowered(host), false, port))
            && ParseTail(hp) == Ok(Tail("", "", if rest == "" then "" else rest[1..]))
  {
    hide Query.Find, HostError, PortSuffix, PortValue, ParseTail, FragmentOnly, Lowered;
    HostnamePlain(host);
    var text := host + PortSuffix(port);
    var hp := text + rest;
    AloneMarks(host, port, rest);
    ColonFoundAlone(host, port, rest);
    PortDigits(host, port, rest);
    NoSuffix(port);
    var colon := PortColon(hp, None);
    assert HasPort(hp, colon) <==> port > 0;
    assert ParsePort(hp, colon) == Ok(port);
    assert hp[..|host|] == host && hp[..|text|] == text;
    assert HostText(hp, None) == host;
  }

  lemma AloneMarks(host: string, port: nat, rest: string)
    requires Hostname(host) && port <= 65535 && FragmentOnly(rest)
    ensures var text := host + PortSuffix(port); var hp := text + rest;
            && PortEnd(hp) == Some(|text|) && HostEnd(hp) == |text| && hp != "" && hp[0] == host[0]
            && ParseTail(hp) == Ok(Tail("", "", if rest == "" then "" else rest[1..]))
  {
    hide Query.Find, HostError, PortSuffix;
    HostnamePlain(host);
    PortSuffixPlain(port);
    var text := host + PortSuffix(port);
    var hp := text + rest;
    MarkFound(text, '/', rest);
    MarkFound(text, '?', rest);
    MarkFound(text, '#', rest);
    Query.FindEnd(hp, '/');
    Query.FindEnd(hp, '?');
    RestStarts(rest);
    assert rest != "" ==> hp[|text| + 1..] == rest[1..];
  }

  lemma NoSuffix(port: nat)
    ensures PortSuffix(port) == "" <==> port == 0
  {
  }

  lemma MarkFound(text: string, c: char, rest: string)
    requires c !in text
    ensures Query.Find(text + rest, c) == |text| + Query.Find(rest, c)
  {
    FindAfter(text, rest, c);
  }

  lemma RestStarts(rest: string)
    requires FragmentOnly(rest)
    ensures Query.Find(rest, '#') == 0 && Query.Find(rest, '/') == |rest| && Query.Find(rest, '?') == |rest|
  {
    Query.FindEnd(rest, '/');
    Query.FindEnd(rest, '?');
    Query.FindIs(rest, '#', 0);
  }

  lemma ColonFoundAlone(host: string, port: nat, rest: string)
    requires ':' !in host
    ensures var colon := Query.Find(host + PortSuffix(port) + rest, ':');
            if port > 0 then colon == |host| else colon >= |host|
  {
    hide Literals.Numeral;
    assert host + PortSuffix(port) + rest == host + (PortSuffix(port) + rest);
    FindAfter(host, PortSuffix(port) + rest, ':');
    if port > 0 {
      Query.FindIs(PortSuffix(port) + rest, ':', 0);
    }
  }

  lemma PortDigits(host: string, port: nat, rest: string)
    requires port <= 65535
    ensures port > 0 ==>
              PortValue((host + PortSuffix(port) + rest)[|host| + 1..|host + PortSuffix(port)|]) == Ok(port)
  {
    hide Literals.Numeral, Literals.Value, Literals.IsNumeral;
    NumeralChars(port);
    if port > 0 {
      var hp := host + PortSuffix(port) + rest;
      assert hp[|host| + 1..|host + PortSuffix(port)|] == Literals.Numeral(10, port);
    }
  }

  /** A host with a query and no path: the path is empty. A port is not seen before the query: it makes the host
      invalid. */
  lemma HostAndQuery(host: string, port: nat, query: string, rest: string, isIpv6: string -> bool)
    requires Hostname(host) && port <= 65535 && '/' !in query && '#' !in query && FragmentOnly(rest)
    ensures var hp := host + PortSuffix(port) + (['?'] + query + rest);
            && ParseTail(hp) == Ok(Tail("", query, if rest == "" then "" else rest[1..]))
            && if port == 0 then ParseAuthority(hp, isIpv6) == Ok(Authority(Lowered(host), false, 0))
               else ParseAuthority(hp, isIpv6).Err?
  {
    hide Query.Find, HostError, PortSuffix, ParseTail, FragmentOnly, Lowered, PortEnd, HostEnd;
    HostnamePlain(host);
    QueryMarks(host, port, query, rest);
    var text := host + PortSuffix(port);
    var hp := text + (['?'] + query + rest);
    NoSuffix(port);
    assert hp[..|text|] == text;
    assert HostText(hp, None) == text;
    assert ParsePort(hp, PortColon(hp, None)) == Ok(0);
    if port > 0 {
      ColonRefused(host, port);
    } else {
      assert text == host;
    }
  }

  lemma QueryMarks(host: string, port: nat, query: string, rest: string)
    requires Hostname(host) && port <= 65535 && '/' !in query && '#' !in query && FragmentOnly(rest)
    ensures var text := host + PortSuffix(port); var hp := text + (['?'] + query + rest);
            && PortEnd(hp) == None && HostEnd(hp) == |text| && hp[0] == host[0]
            && ParseTail(hp) == Ok(Tail("", query, if rest == "" then "" else rest[1..]))
  {
    hide Query.Find, HostError, PortSuffix, ParseTail;
    HostnamePlain(host);
    PortSuffixPlain(port);
    var text := host + PortSuffix(port);
    var hp := text + (['?'] + query + rest);
    WhereMarksAre(text, query, rest);
    Query.FindEnd(hp, '/');
    Query.FindEnd(hp, '?');
    QueryTail(text, query, rest);
  }

  lemma WhereMarksAre(text: string, query: string, rest: string)
    requires Plain(text) && '/' !in query && '#' !in query && FragmentOnly(rest)
    ensures var hp := text + (['?'] + query + rest);
            && Query.Find(hp, '/') == |hp| && Query.Find(hp, '?') == |text| < |hp|
            && Query.Find(hp, '#') == |text| + 1 + |query|
  {
    hide Query.Find;
    var tail := ['?'] + query + rest;
    MarkFound(text, '/', tail);
    MarkFound(text, '?', tail);
    MarkFound(text, '#', tail);
    Query.FindEnd(tail, '/');
    Query.FindIs(tail, '?', 0);
    MarkFound(['?'] + query, '#', rest);
    RestStarts(rest);
  }

  lemma QueryTail(text: string, query: string, rest: string)
    requires Plain(text) && '/' !in query && '#' !in query && FragmentOnly(rest)
    ensures ParseTail(text + (['?'] + query + rest)) == Ok(Tail("", query, if rest == "" then "" else rest[1..]))
  {
    hide Query.Find, Plain, FragmentOnly;
    WhereMarksAre(text, query, rest);
    var n := |text| + 1 + |query|;
    var hp := text + (['?'] + query + rest);
    assert hp[|text| + 1..n] == query && hp[n..] == rest;
    assert rest != "" ==> hp[n + 1..] == rest[1..];
  }

  lemma ColonRefused(host: string, port: nat)
    requires port > 0
    ensures HostError(host + PortSuffix(port), 0, 0).Some?
  {
    hide Literals.Numeral;
    var text := host + PortSuffix(port);
    assert text[|host|] == ':';
    if HostError(text, 0, 0).None? {
      HostChars(text, 0, 0);
      assert false;
    }
  }

  // ----- errors -----

  /** Which text gives which error. */
  lemma ErrorExamples()
    ensures SchemeError("") == Some(SchemeEmpty) && SchemeError("1a") == Some(SchemeShouldStartWithLetter)
    ensures SchemeError("a_b") == Some(SchemeInvalidCharacter) && SchemeError("a+.-1") == None
    ensures PortValue("") == Ok(0) && PortValue("0") == Err(PortOutOfRange) && PortValue("65536") == Err(PortOutOfRange)
    ensures PortValue("65535") == Ok(65535) && PortValue("8x") == Err(PortInvalidCharacter)
    ensures HostError("-a", 0, 0) == Some(LabelStartsWithHyphen) && HostError("a-.b", 0, 0) == Some(LabelEndsWithHyphen)
    ensures HostError("a..b", 0, 0) == Some(LabelEmpty) && HostError("a_b", 0, 0) == Some(LabelInvalidCharacter)
    ensures HostError("a.b-c", 0, 0) == None
  {
    var s := "a_b";
    assert s[1] == '_';
    assert !Literals.IsDigit(10, "8x"[1]);
    assert "65535"[..4] == "6553" && "6553"[..3] == "655" && "655"[..2] == "65" && "65"[..1] == "6" && "6"[..0] == "";
    assert "65536"[..4] == "6553";
    assert "0"[..0] == "";
  }

  /** Sizes of hosts and addresses. */
  lemma HostSizes(host: string, isIpv6: string -> bool)
    ensures CheckHost(host, false, isIpv6) == Some(HostTooShort) <==> |host| < 4
    ensures |host| > 253 ==> CheckHost(host, false, isIpv6) == Some(HostTooLong)
    ensures 4 <= |host| <= 253 ==> CheckHost(host, false, isIpv6) == HostError(host, 0, 0)
    ensures CheckHost(host, true, isIpv6).None? <==> 2 <= |host| <= 39 && isIpv6(host)
    ensures |host| < 2 ==> CheckHost(host, true, isIpv6) == Some(Ipv6TooShort)
    ensures |host| > 39 ==> CheckHost(host, true, isIpv6) == Some(Ipv6TooLong)
  {
    if |host| >= 4 {
      SizeErrorKind(host, 0, 0);
    }
  }

  lemma {:induction false} SizeErrorKind(h: string, i: nat, start: nat)
    requires start <= i <= |h|
    ensures HostError(h, i, start) != Some(HostTooShort)
    decreases |h| - i
  {
    if i < |h| {
      SizeErrorKind(h, i + 1, i + 1);
      SizeErrorKind(h, i + 1, start);
    }
  }

  // ----- printing -----

  /** Printed URIs: with all parts; with nothing but scheme and host; with an empty password, whose ':' is kept; and
      with an IPv6 address, in brackets. */
  lemma PrintedForms(u: Record)
    requires u.scheme != "" && u.host != ""
    ensures u.auth && !u.ipv6 && u.port > 0 && u.query != "" && u.fragment != "" ==>
              Print(u) == u.scheme + "://" +
                          (u.username + ":" + u.password + "@" +
                           (u.host + (":" + Literals.Numeral(10, u.port)) +
                            ("/" + (u.path + ("?" + u.query) + ("#" + u.fragment)))))
    ensures Print(Record(u.scheme, false, "", "", u.host, false, 0, "", "", "")) == u.scheme + "://" + (u.host + "/")
    ensures Print(Record(u.scheme, true, "me", "", u.host, false, 0, "", "", "")) ==
            u.scheme + "://" + ("me:@" + (u.host + "/"))
    ensures Print(Record(u.scheme, false, "", "", u.host, true, 0, "", "", "")) ==
            u.scheme + "://" + ("[" + u.host + "]" + "/")
  {
    hide Literals.Numeral;
    var v := Record(u.scheme, true, "me", "", u.host, false, 0, "", "", "");
    assert UserText(v) == "me:@";
    ShortForm(v);
    ShortForm(v.(auth := false, username := ""));
    ShortForm(v.(auth := false, username := "", ipv6 := true));
  }

  lemma ShortForm(v: Record)
    requires v.scheme != "" && v.host != "" && v.port == 0 && v.path == "" && v.query == "" && v.fragment == ""
    ensures Print(v) == v.scheme + "://" + if v.auth then UserText(v) + (BracketedHost(v) + "/")
            else BracketedHost(v) + "/"
  {
    assert TailText(TailOf(v)) == "";
    assert HostPortText(v) == BracketedHost(v);
    assert AfterUser(v) == BracketedHost(v) + "/";
    if !v.auth {
      assert UserText(v) + AfterUser(v) == AfterUser(v);
    }
  }
}
