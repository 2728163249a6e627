/** `struct URI` and its methods (src/uri.c, lines 13-465; `intlen`, src/utils.c, lines 43-55), proved against Uri.
    Allocation always succeeds here. */
module UriObject {
  import opened Base
  import Literals
  import Query
  import opened Uri

  // ----- loops on characters -----

  function Shifted(k: nat, r: Option<nat>): Option<nat> {
    if r.None? then None else Some(k + r.value)
  }

  lemma SeparatorStep(s: string, k: nat)
    requires k <= |s|
    ensures k + 3 > |s| ==> FindSeparator(s[k..]).None?
    ensures k + 3 <= |s| ==>
            FindSeparator(s[k..]) == if s[k..k + 3] == "://" then Some(0) else Shifted(1, FindSeparator(s[k + 1..]))
  {
    if k + 3 <= |s| {
      assert s[k..][..3] == s[k..k + 3] && s[k..][1..] == s[k + 1..];
    }
  }

  /** `strstr` for "://". */
  method SeekSeparator(s: string) returns (r: Option<nat>)
    ensures r == FindSeparator(s)
  {
    hide FindSeparator;
    var k := 0;
    assert s[0..] == s;
    while k + 3 <= |s|
      invariant k <= |s| && FindSeparator(s) == Shifted(k, FindSeparator(s[k..]))
    {
      SeparatorStep(s, k);
      if s[k..k + 3] == "://" {
        return Some(k);
      }
      k := k + 1;
    }
    SeparatorStep(s, k);
    return None;
  }

  /** The loop that checks a scheme and lowers it in place. */
  method CheckScheme(scheme: array<char>) returns (e: Option<Error>)
    requires scheme.Length > 0
    modifies scheme
    ensures e == SchemeError(old(scheme[..]))
    ensures e.None? ==> scheme[..] == Lowered(old(scheme[..]))
  {
    ghost var was := scheme[..];
    for index := 0 to scheme.Length
      invariant scheme[index..] == was[index..]
      invariant forall i | 0 <= i < index :: scheme[i] == Lower(was[i]) && SchemeChar(was[i])
      invariant index > 0 ==> IsAlpha(was[0])
    {
      var ch := scheme[index];
      assert ch == was[index..][0];
      if index == 0 && !IsAlpha(ch) {
        return Some(SchemeShouldStartWithLetter);
      }
      if !SchemeChar(ch) {
        return Some(SchemeInvalidCharacter);
      }
      if IsUpper(ch) {
        scheme[index] := (ch as int + 32) as char;
      }
      assert scheme[index + 1..] == scheme[index..][1..];
    }
    return None;
  }

  /** The loop that checks the labels of a host and lowers it in place. */
  method CheckLabels(h: array<char>) returns (e: Option<Error>)
    modifies h
    ensures e == HostError(old(h[..]), 0, 0)
    ensures e.None? ==> h[..] == Lowered(old(h[..]))
  {
    ghost var was := h[..];
    var start := 0;
    var index := 0;
    while index <= h.Length
      invariant start <= index <= h.Length + 1 && start <= h.Length + 1
      invariant index <= h.Length ==> start <= h.Length && HostError(was, 0, 0) == HostError(was, index, start)
      invariant index > h.Length ==> HostError(was, 0, 0).None?
      invariant forall i | 0 <= i < index && i < h.Length :: h[i] == Lower(was[i])
      invariant forall i | index <= i < h.Length :: h[i] == was[i]
      decreases h.Length + 1 - index
    {
      var length := index - start;
      if length == 0 && index < h.Length && h[index] == '-' {
        return Some(LabelStartsWithHyphen);
      }
      if index == h.Length || h[index] == '.' {
        if length < 1 {
          return Some(LabelEmpty);
        }
        if length > 63 {
          return Some(LabelTooLong);
        }
        if h[index - 1] == '-' {
          return Some(LabelEndsWithHyphen);
        }
        start := index + 1;
      } else {
        if !LabelChar(h[index]) {
          return Some(LabelInvalidCharacter);
        }
        if IsUpper(h[index]) {
          h[index] := (h[index] as int + 32) as char;
        }
      }
      index := index + 1;
    }
    return None;
  }

  /** `isnumeric` and `atoi`; None for a character that is not a digit. */
  method ReadNumber(value: string) returns (r: Option<nat>)
    requires value != ""
    ensures r.Some? <==> Literals.IsNumeral(10, value)
    ensures r.Some? ==> r.value == Literals.Value(10, value)
  {
    var v: nat := 0;
    for index := 0 to |value|
      invariant forall j | 0 <= j < index :: Literals.IsDigit(10, value[j])
      invariant v == Literals.Value(10, value[..index])
    {
      var d := Literals.HexVal(value[index]);
      if !IsDigit(value[index]) {
        assert !Literals.IsDigit(10, value[index]);
        return None;
      }
      Literals.ValueStep(10, value, index);
      v := v * 10 + d;
    }
    assert value[..|value|] == value;
    return Some(v);
  }

  /** `intlen`: the number of decimal digits, and 1 for a negative number. */
  method IntLen(value: int) returns (size: nat)
    ensures size == if value < 0 then 1 else |Literals.Numeral(10, value)|
  {
    if value < 0 {
      return 1;
    }
    var val := value;
    size := 0;
    while true
      invariant val >= 0 && size + |Literals.Numeral(10, val)| == |Literals.Numeral(10, value)|
      decreases val
    {
      ghost var before: nat := val;
      val := val / 10;
      size := size + 1;
      if val == 0 {
        assert |Literals.Numeral(10, before)| == 1;
        return;
      }
      assert val == Literals.Quotient(before, 10);
    }
  }

  // ----- the object -----

  class UriStruct {
    var scheme: string
    var auth: bool
    var username: string
    var password: string
    var host: string
    var ipv6: bool
    var port: int
    var path: string
    var query: string
    var fragment: string

    function Abs(): Record
      reads this
    {
      Record(scheme, auth, username, password, host, ipv6, port, path, query, fragment)
    }

    /** A zeroed structure. */
    constructor ()
      ensures Abs() == ZERO
    {
      scheme, username, password, host, path, query, fragment := "", "", "", "", "", "", "";
      auth, ipv6, port := false, false, 0;
    }

    /** `uri_free`. */
    method Free()
      modifies this
      ensures Abs() == ZERO
    {
      ipv6, auth, port := false, false, 0;
      scheme, username, password := "", "", "";
      host, path, query, fragment := "", "", "", "";
    }

    method ParseScheme(text: string) returns (e: Option<Error>)
      modifies this`scheme
      ensures e == SchemeError(text) && (e.None? ==> scheme == Lowered(text))
    {
      if |text| < 1 {
        return Some(SchemeEmpty);
      }
      var buf := new char[|text|](i requires 0 <= i < |text| => text[i]);
      assert buf[..] == text;
      e := CheckScheme(buf);
      scheme := buf[..];
    }

    /** User information, up to the first '@'; the result is the position after it. */
    method ParseUser(s: string) returns (start: nat)
      requires !auth && username == "" && password == ""
      modifies this`username, this`password, this`auth
      ensures start <= |s|
      ensures var i := ParseUserInfo(s);
              && username == i.username && password == i.password && s[start..] == i.after
              && auth == (i.username != "" || i.password != "")
    {
      var at := Query.Seek(s, 0, '@');
      assert s[0..] == s;
      if at == |s| {
        return 0;
      }
      var separator := Query.Seek(s, 0, ':');
      if separator > at {
        separator := at;
      }
      if separator > 0 {
        username := s[..separator];
        auth := true;
      }
      var from := if separator != at then separator + 1 else separator;
      if at - from > 0 {
        password := s[from..at];
        auth := true;
      }
      return at + 1;
    }

    /** The port, and whether there is a colon for it. */
    method ParsePortAt(hp: string, colon: nat) returns (e: Option<Error>, found: bool)
      requires port == 0 && colon <= |hp|
      modifies this`port
      ensures found == HasPort(hp, colon)
      ensures match ParsePort(hp, colon) case Err(x) => e == Some(x) case Ok(v) => e.None? && port == v
    {
      hide Literals.Value, Literals.IsNumeral, PortEnd;
      var end := FindPortEnd(hp);
      e, found := None, end.Some? && colon < end.value;
      if found {
        var digits := hp[colon + 1..end.value];
        if digits != "" {
          var v := ReadNumber(digits);
          if v.None? {
            return Some(PortInvalidCharacter), found;
          }
          port := v.value;
          if port < 1 || port > 65535 {
            return Some(PortOutOfRange), found;
          }
        }
      }
    }

    /** Host and port; hp is what follows the user information. */
    method ParseHost(hp: string, isIpv6: string -> bool) returns (e: Option<Error>)
      requires port == 0 && !ipv6
      modifies this`host, this`port, this`ipv6
      ensures match ParseAuthority(hp, isIpv6)
              case Err(x) => e == Some(x)
              case Ok(a) => e.None? && host == a.host && port == a.port && ipv6 == a.ipv6
    {
      hide Query.Find, CheckHost, HasPort, ParsePort, HostEnd, Lowered;
      assert hp[0..] == hp;
      var close: Option<nat> := None;
      if hp != "" && hp[0] == '[' {
        var k := Query.Seek(hp, 0, ']');
        if k == |hp| {
          return Some(MissingClosingBracket);
        }
        CloseAfterOpen(hp);
        close := Some(k);
      }
      var colon := Query.Seek(hp, if close.Some? then close.value else 0, ':');
      var found;
      e, found := ParsePortAt(hp, colon);
      if e.Some? {
        return;
      }
      var k := FindHostEnd(hp);
      var text := if close.Some? then hp[1..close.value] else hp[..if found then colon else k];
      e := StoreHost(text, close.Some?, isIpv6);
    }

    /** The checks of a host, and its conversion. */
    method StoreHost(text: string, isAddress: bool, isIpv6: string -> bool) returns (e: Option<Error>)
      requires !ipv6
      modifies this`host, this`ipv6
      ensures e == CheckHost(text, isAddress, isIpv6)
      ensures e.None? ==> host == (if isAddress then text else Lowered(text)) && ipv6 == isAddress
    {
      hide HostError;
      if isAddress {
        if |text| < 2 {
          return Some(Ipv6TooShort);
        }
        if |text| > 39 {
          return Some(Ipv6TooLong);
        }
      } else {
        if |text| < 4 {
          return Some(HostTooShort);
        }
        if |text| > 253 {
          return Some(HostTooLong);
        }
      }
      if isAddress {
        host := text;
        if !isIpv6(host) {
          return Some(Ipv6Invalid);
        }
        ipv6 := true;
        return None;
      }
      var buf := new char[|text|](i requires 0 <= i < |text| => text[i]);
      assert buf[..] == text;
      e := CheckLabels(buf);
      host := buf[..];
    }

    /** Fragment, query and path. */
    method ParseRest(hp: string) returns (e: Option<Error>)
      requires path == "" && query == "" && fragment == ""
      modifies this`path, this`query, this`fragment
      ensures match ParseTail(hp)
              case Err(x) => e == Some(x)
              case Ok(t) => e.None? && path == t.path && query == t.query && fragment == t.fragment
    {
      hide Query.Find;
      assert hp[0..] == hp;
      var slash := Query.Seek(hp, 0, '/');
      var q := Query.Seek(hp, 0, '?');
      var f := Query.Seek(hp, 0, '#');
      if f < |hp| {
        fragment := hp[f + 1..];
      }
      if q < |hp| {
        if f < q + 1 {
          return Some(NegativeSize);
        }
        query := hp[q + 1..f];
      }
      if slash < |hp| {
        if q < slash + 1 {
          return Some(NegativeSize);
        }
        path := hp[slash + 1..q];
      }
      return None;
    }

    /** `parse_uri`. */
    method ParseUri(uri: string, isIpv6: string -> bool) returns (e: Option<Error>)
      requires Abs() == ZERO
      modifies this
      ensures match Parse(uri, isIpv6) case Err(x) => e == Some(x) case Ok(r) => e.None? && Abs() == r
    {
      hide SchemeError, ParseUserInfo, ParseAuthority, ParseTail, FindSeparator, Lowered;
      var k := SeekSeparator(uri);
      if k.None? {
        return Some(SchemeMissing);
      }
      e := ParseScheme(uri[..k.value]);
      if e.Some? {
        return;
      }
      var rest := uri[k.value + 3..];
      var start := ParseUser(rest);
      var hp := rest[start..];
      e := ParseHost(hp, isIpv6);
      if e.Some? {
        return;
      }
      e := ParseRest(hp);
    }

    /** `uri_parse`: a structure for which parsing fails is cleared. */
    method ParseOrClear(uri: string, isIpv6: string -> bool) returns (e: Option<Error>)
      requires Abs() == ZERO
      modifies this
      ensures match Parse(uri, isIpv6) case Err(x) => e == Some(x) && Abs() == ZERO case Ok(r) => e.None? && Abs() == r
    {
      e := ParseUri(uri, isIpv6);
      if e.Some? {
        Free();
      }
    }

    /** `uri_stringify`: the text, and the size that was computed before it was written. */
    method Stringify() returns (uri: string, size: nat)
      ensures uri == Print(Abs()) && |uri| == size
    {
      hide UserText, HostPortText, TailText;
      size := 0;
      uri := "";
      if scheme != "" {
        size := size + |scheme| + 3;
        uri := uri + scheme;
        uri := uri + "://";
      }
      var user, userSize := StringifyUser();
      var hostPort, hostSize := StringifyHost();
      var tail, tailSize := StringifyTail();
      Grouped(uri, user, hostPort, tail);
      size := size + userSize + hostSize + tailSize;
      uri := uri + user + hostPort + tail;
    }

    method StringifyUser() returns (text: string, size: nat)
      ensures text == UserText(Abs()) && |text| == size
    {
      text, size := "", 0;
      if auth {
        size := |username| + |password| + 2;
        text := text + username;
        text := text + ":";
        text := text + password;
        text := text + "@";
      }
    }

    method StringifyHost() returns (text: string, size: nat)
      ensures text == HostPortText(Abs()) && |text| == size
    {
      hide Literals.Numeral;
      text, size := "", 0;
      if host != "" {
        size := |host| + if ipv6 then 2 else 0;
        text := if ipv6 then "[" + host + "]" else host;
      }
      var digits := IntLen(port);
      if port > 0 {
        size := size + 1 + digits;
        text := text + (":" + Literals.Numeral(10, port));
      }
    }

    method StringifyTail() returns (tail: string, size: nat)
      ensures tail == "/" + TailText(TailOf(Abs())) && |tail| == size
    {
      size := 1 + |path| + (if query != "" then 1 + |query| else 0) + (if fragment != "" then 1 + |fragment| else 0);
      tail := "/";
      tail := tail + path;
      if query != "" {
        tail := tail + "?";
        tail := tail + query;
      }
      if fragment != "" {
        tail := tail + "#";
        tail := tail + fragment;
      }
    }
  }

  lemma Grouped(a: string, b: string, c: string, d: string)
    ensures a + b + c + d == a + (b + (c + d))
  {
  }

  lemma CloseAfterOpen(hp: string)
    requires hp != "" && hp[0] == '['
    ensures Query.Find(hp, ']') >= 1
  {
  }

  method FindPortEnd(hp: string) returns (e: Option<nat>)
    ensures e == PortEnd(hp)
  {
    assert hp[0..] == hp;
    Query.FindEnd(hp, '/');
    Query.FindEnd(hp, '?');
    var slash := Query.Seek(hp, 0, '/');
    var q := Query.Seek(hp, 0, '?');
    var f := Query.Seek(hp, 0, '#');
    return if slash < |hp| then Some(slash) else if q < |hp| then None else Some(f);
  }

  method FindHostEnd(hp: string) returns (e: nat)
    ensures e == HostEnd(hp)
  {
    assert hp[0..] == hp;
    Query.FindEnd(hp, '/');
    Query.FindEnd(hp, '?');
    var slash := Query.Seek(hp, 0, '/');
    var q := Query.Seek(hp, 0, '?');
    var f := Query.Seek(hp, 0, '#');
    return if slash < |hp| then slash else if q < |hp| then q else f;
  }
}
