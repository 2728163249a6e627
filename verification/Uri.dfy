/** URIs (src/uri.c): what parsing and printing compute. A null pointer in the source is "" here. */
module Uri {
  import opened Base
  import Literals
  import Query

  datatype Error =
    | SchemeMissing | SchemeEmpty | SchemeShouldStartWithLetter | SchemeInvalidCharacter
    | MissingClosingBracket | PortInvalidCharacter | PortOutOfRange
    | Ipv6TooShort | Ipv6TooLong | Ipv6Invalid | HostTooShort | HostTooLong
    | LabelStartsWithHyphen | LabelEmpty | LabelTooLong | LabelEndsWithHyphen | LabelInvalidCharacter
    | NegativeSize  // the source would copy a negative number of bytes

  datatype Result<+T> = Ok(value: T) | Err(error: Error)

  datatype Record = Record(scheme: string, auth: bool, username: string, password: string,
                           host: string, ipv6: bool, port: int, path: string, query: string, fragment: string)

  const ZERO := Record("", false, "", "", "", false, 0, "", "", "")

  // ----- characters -----

  predicate IsUpper(c: char) {
    'A' <= c <= 'Z'
  }

  predicate IsAlpha(c: char) {
    'a' <= c <= 'z' || IsUpper(c)
  }

  predicate IsDigit(c: char) {
    '0' <= c <= '9'
  }

  predicate SchemeChar(c: char) {
    IsAlpha(c) || IsDigit(c) || c == '+' || c == '.' || c == '-'
  }

  predicate LabelChar(c: char) {
    IsAlpha(c) || IsDigit(c) || c == '-'
  }

  function Lower(c: char): char {
    if IsUpper(c) then (c as int + 32) as char else c
  }

  function Lowered(s: string): (t: string)
    ensures |t| == |s| && forall i | 0 <= i < |s| :: t[i] == Lower(s[i])
  {
    seq(|s|, i requires 0 <= i < |s| => Lower(s[i]))
  }

  /** Lowering keeps the class of each character, and nothing is left to lower. */
  lemma LoweredTwice(s: string)
    ensures Lowered(Lowered(s)) == Lowered(s)
    ensures forall i | 0 <= i < |s| ::
            (SchemeChar(Lowered(s)[i]) <==> SchemeChar(s[i])) && (IsAlpha(Lowered(s)[i]) <==> IsAlpha(s[i]))
    ensures forall i | 0 <= i < |s| ::
            (LabelChar(Lowered(s)[i]) <==> LabelChar(s[i])) && (Lowered(s)[i] == '-' <==> s[i] == '-')
    ensures forall i | 0 <= i < |s| :: Lowered(s)[i] == '.' <==> s[i] == '.'
  {
  }

  // ----- scheme -----

  /** The first position of "://". */
  function FindSeparator(s: string): (r: Option<nat>)
    ensures r.Some? ==> r.value + 3 <= |s| && s[r.value..r.value + 3] == "://"
  {
    if |s| < 3 then None
    else if s[..3] == "://" then Some(0)
    else
      match FindSeparator(s[1..])
      case None => None
      case Some(k) =>
        assert s[k + 1..k + 4] == s[1..][k..k + 3];
        Some(k + 1)
  }

  function SchemeError(scheme: string): Option<Error> {
    if scheme == "" then Some(SchemeEmpty)
    else if !IsAlpha(scheme[0]) then Some(SchemeShouldStartWithLetter)
    else if exists i :: 0 <= i < |scheme| && !SchemeChar(scheme[i]) then Some(SchemeInvalidCharacter)
    else None
  }

  // ----- user information -----

  datatype UserInfo = UserInfo(username: string, password: string, after: string)

  /** What precedes the first '@', split at the first ':'. */
  function ParseUserInfo(s: string): UserInfo {
    var at := Query.Find(s, '@');
    if at == |s| then UserInfo("", "", s)
    else
      var separator := Min(Query.Find(s, ':'), at);
      UserInfo(s[..separator], if separator == at then "" else s[separator + 1..at], s[at + 1..])
  }

  // ----- host and port -----

  /** The scan of the labels of a host, from position i in the label that begins at start. */
  function HostError(h: string, i: nat, start: nat): Option<Error>
    requires start <= i <= |h|
    decreases |h| - i
  {
    if start == i < |h| && h[i] == '-' then Some(LabelStartsWithHyphen)
    else if i == |h| || h[i] == '.' then
      if i == start then Some(LabelEmpty)
      else if i - start > 63 then Some(LabelTooLong)
      else if h[i - 1] == '-' then Some(LabelEndsWithHyphen)
      else if i == |h| then None
      else HostError(h, i + 1, i + 1)
    else if !LabelChar(h[i]) then Some(LabelInvalidCharacter)
    else HostError(h, i + 1, start)
  }

  /** The first ':' that may precede a port: after the closing bracket of an IPv6 address, if there is one. */
  function PortColon(hp: string, close: Option<nat>): (k: nat)
    requires close.Some? ==> close.value <= |hp|
    ensures k <= |hp|
  {
    if close.None? then Query.Find(hp, ':') else close.value + Query.Find(hp[close.value..], ':')
  }

  /** Where the port ends: at the path, or at the end. None is the null pointer that the source uses when there is a
      query and no path. */
  function PortEnd(hp: string): (e: Option<nat>)
    ensures e.Some? ==> e.value <= |hp|
  {
    if '/' in hp then Some(Query.Find(hp, '/'))
    else if '?' in hp then None
    else Some(Query.Find(hp, '#'))
  }

  function HostEnd(hp: string): (e: nat)
    ensures e <= |hp|
  {
    if '/' in hp then Query.Find(hp, '/')
    else if '?' in hp then Query.Find(hp, '?')
    else Query.Find(hp, '#')
  }

  predicate HasPort(hp: string, colon: nat) {
    PortEnd(hp).Some? && colon < PortEnd(hp).value
  }

  function PortValue(digits: string): Result<int> {
    if digits == "" then Ok(0)
    else if !Literals.IsNumeral(10, digits) then Err(PortInvalidCharacter)
    else
      var v := Literals.Value(10, digits);
      if 1 <= v <= 65535 then Ok(v) else Err(PortOutOfRange)
  }

  function ParsePort(hp: string, colon: nat): Result<int> {
    if HasPort(hp, colon) then PortValue(hp[colon + 1..PortEnd(hp).value]) else Ok(0)
  }

  function CheckHost(host: string, ipv6: bool, isIpv6: string -> bool): Option<Error> {
    if ipv6 then
      if |host| < 2 then Some(Ipv6TooShort)
      else if |host| > 39 then Some(Ipv6TooLong)
      else if !isIpv6(host) then Some(Ipv6Invalid)
      else None
    else if |host| < 4 then Some(HostTooShort)
    else if |host| > 253 then Some(HostTooLong)
    else HostError(host, 0, 0)
  }

  datatype Authority = Authority(host: string, ipv6: bool, port: int)

  function Opens(hp: string): bool {
    hp != "" && hp[0] == '['
  }

  /** The host, before it is checked; close is the position of the closing bracket. */
  function HostText(hp: string, close: Option<nat>): string
    requires close.Some? ==> 1 <= close.value <= |hp|
  {
    if close.Some? then hp[1..close.value]
    else
      var colon := PortColon(hp, None);
      hp[..if HasPort(hp, colon) then colon else HostEnd(hp)]
  }

  function ParseAuthority(hp: string, isIpv6: string -> bool): Result<Authority> {
    var close := if Opens(hp) then Some(Query.Find(hp, ']')) else None;
    if close.Some? && close.value == |hp| then Err(MissingClosingBracket)
    else
      match ParsePort(hp, PortColon(hp, close))
      case Err(e) => Err(e)
      case Ok(port) =>
        var host := HostText(hp, close);
        match CheckHost(host, close.Some?, isIpv6)
        case Some(e) => Err(e)
        case None => Ok(Authority(if close.Some? then host else Lowered(host), close.Some?, port))
  }

  // ----- path, query and fragment -----

  datatype Tail = Tail(path: string, query: string, fragment: string)

  /** The bytes from one position to another; an error when the size is negative. */
  function Between(s: string, from: nat, to: nat): Result<string>
    requires to <= |s|
  {
    if from > to then Err(NegativeSize) else Ok(s[from..to])
  }

  /** The three parts, or the first error. */
  function Combine(query: Result<string>, path: Result<string>, fragment: string): Result<Tail> {
    if query.Err? then Err(query.error)
    else if path.Err? then Err(path.error)
    else Ok(Tail(path.value, query.value, fragment))
  }

  function After(s: string, k: nat): string
    requires k <= |s|
  {
    if k == |s| then "" else s[k + 1..]
  }

  /** Without a query, the path goes on to the end, across a fragment. */
  function ParseTail(hp: string): Result<Tail> {
    var slash, q, f := Query.Find(hp, '/'), Query.Find(hp, '?'), Query.Find(hp, '#');
    Combine(if q == |hp| then Ok("") else Between(hp, q + 1, f),
            if slash == |hp| then Ok("") else Between(hp, slash + 1, q),
            After(hp, f))
  }

  // ----- the whole -----

  function Parse(s: string, isIpv6: string -> bool): Result<Record> {
    match FindSeparator(s)
    case None => Err(SchemeMissing)
    case Some(k) =>
      match SchemeError(s[..k])
      case Some(e) => Err(e)
      case None =>
        var info := ParseUserInfo(s[k + 3..]);
        match ParseAuthority(info.after, isIpv6)
        case Err(e) => Err(e)
        case Ok(a) =>
          match ParseTail(info.after)
          case Err(e) => Err(e)
          case Ok(t) =>
            Ok(Record(Lowered(s[..k]), info.username != "" || info.password != "", info.username, info.password,
                      a.host, a.ipv6, a.port, t.path, t.query, t.fragment))
  }

  function UserText(u: Record): string {
    if u.auth then u.username + ":" + u.password + "@" else ""
  }

  function HostPortText(u: Record): string {
    (if u.host == "" then "" else if u.ipv6 then "[" + u.host + "]" else u.host)
    + (if u.port > 0 then ":" + Literals.Numeral(10, u.port) else "")
  }

  function TailText(t: Tail): string {
    t.path + (if t.query == "" then "" else "?" + t.query) + (if t.fragment == "" then "" else "#" + t.fragment)
  }

  function TailOf(u: Record): Tail {
    Tail(u.path, u.query, u.fragment)
  }

  function SchemeText(u: Record): string {
    if u.scheme == "" then "" else u.scheme + "://"
  }

  function AfterUser(u: Record): string {
    HostPortText(u) + ("/" + TailText(TailOf(u)))
  }

  function Print(u: Record): string {
    SchemeText(u) + (UserText(u) + AfterUser(u))
  }
}
