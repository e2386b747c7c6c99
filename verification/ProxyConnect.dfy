/** The HTTP CONNECT handshake, src-tauri/src/services/network_proxy_service.rs. */
module ProxyConnect {
  import opened Bytes
  import opened Utf8Text
  import opened Base64
  import opened ByteSearch
  import opened ProxyStream

  const MAX_PROXY_RESPONSE_BYTES: nat := 8 * 1024

  // ----- The authority -----

  function Digit(n: int): char
    requires 0 <= n < 10
  {
    '0' + n as char
  }

  function Decimal(n: nat): (r: string)
    ensures r != ""
  {
    if n < 10 then [Digit(n)] else Decimal(n / 10) + [Digit(n % 10)]
  }

  function ParseDecimal(s: string): Option<nat> {
    if s == "" then Some(0)
    else
      var c := s[|s| - 1];
      match ParseDecimal(s[..|s| - 1])
      case None => None
      case Some(n) => if '0' <= c <= '9' then Some(n * 10 + (c - '0') as int) else None
  }

  lemma {:induction false} DecimalReadsBack(n: nat)
    ensures ParseDecimal(Decimal(n)) == Some(n)
    ensures Decimal(n)[0] == '0' ==> n == 0 && Decimal(n) == "0"
    ensures forall i :: 0 <= i < |Decimal(n)| ==> '0' <= Decimal(n)[i] <= '9'
  {
    if n < 10 {
      assert [Digit(n)][..0] == "";
    } else {
      DecimalReadsBack(n / 10);
      assert Decimal(n)[..|Decimal(n)| - 1] == Decimal(n / 10);
    }
  }

  function FormatUrlHost(host: string): string {
    var name := TrimBrackets(host);
    if ':' in name then "[" + name + "]" else name
  }

  function FormatAuthority(host: string, port: port16): string {
    FormatUrlHost(host) + ":" + Decimal(port)
  }

  /** Reads an authority: the port follows the last colon. */
  function ParseAuthority(s: string): Option<(string, nat)> {
    if s == "" then None
    else if s[|s| - 1] == ':' then
      var host := s[..|s| - 1];
      Some((if |host| >= 2 && host[0] == '[' && host[|host| - 1] == ']' then host[1..|host| - 1] else host, 0))
    else
      var c := s[|s| - 1];
      match ParseAuthority(s[..|s| - 1])
      case None => None
      case Some((host, n)) => if '0' <= c <= '9' then Some((host, n * 10 + (c - '0') as int)) else None
  }

  lemma {:induction false} ParsedPort(head: string, digits: string)
    requires forall i :: 0 <= i < |digits| ==> '0' <= digits[i] <= '9'
    requires ParseDecimal(digits).Some?
    ensures ParseAuthority(head + ":" + digits)
            == Some((if |head| >= 2 && head[0] == '[' && head[|head| - 1] == ']' then head[1..|head| - 1] else head,
                     ParseDecimal(digits).value))
  {
    var s := head + ":" + digits;
    if digits == "" {
      assert s[..|s| - 1] == head;
    } else {
      var n := |digits| - 1;
      ParsedPort(head, digits[..n]);
      assert s[..|s| - 1] == head + ":" + digits[..n] && s[|s| - 1] == digits[n];
    }
  }

  lemma FirstOfName(name: string, host: string)
    requires IsNameOf(name, host)
    ensures name != "" ==> name[0] != '['
  {
  }

  /** The authority names the host and the port; a name with a colon stands in brackets. */
  lemma AuthorityReadsBack(host: string, name: string, port: port16)
    requires IsNameOf(name, host)
    ensures ParseAuthority(FormatAuthority(host, port)) == Some((name, port))
    ensures ':' in name <==> FormatAuthority(host, port)[0] == '['
    ensures port != 0 ==> '1' <= Decimal(port)[0] <= '9'
  {
    hide ParseAuthority, TrimBrackets, Decimal, ParseDecimal, IsNameOf;
    NameIsTrimmed(name, host);
    DecimalReadsBack(port);
    ParsedPort(FormatUrlHost(host), Decimal(port));
    FirstOfName(name, host);
    if ':' in name {
      assert ("[" + name + "]")[1..|name| + 1] == name;
    }
  }

  // ----- The request -----

  const CONNECT: seq<byte> := Utf8("CONNECT ")
  const VERSION_AND_HOST: seq<byte> := Utf8(" HTTP/1.1\r\nHost: ")
  const KEEP_ALIVE: seq<byte> := Utf8("\r\nProxy-Connection: Keep-Alive\r\n")
  const AUTHORIZATION: seq<byte> := Utf8("Proxy-Authorization: Basic ")

  function Login(c: Credentials): seq<byte> {
    Utf8(c.username + ":" + c.password)
  }

  function Authorization(credentials: Option<Credentials>): seq<byte> {
    match credentials
    case None => []
    case Some(c) => AUTHORIZATION + Encode(Login(c)) + CRLF
  }

  function Request(host: string, port: port16, credentials: Option<Credentials>): seq<byte> {
    var authority := Utf8(FormatAuthority(host, port));
    CONNECT + authority + VERSION_AND_HOST + authority + KEEP_ALIVE + Authorization(credentials) + CRLF
  }

  /** The request, letter by letter. */
  lemma RequestText(host: string, port: port16, credentials: Option<Credentials>)
    ensures var target := Utf8(FormatAuthority(host, port));
            Request(host, port, credentials)
            == Utf8("CONNECT ") + target + Utf8(" HTTP/1.1\r\nHost: ") + target
               + Utf8("\r\nProxy-Connection: Keep-Alive\r\n")
               + (if credentials.None? then []
                  else Utf8("Proxy-Authorization: Basic ")
                       + Encode(Utf8(credentials.value.username + ":" + credentials.value.password)) + [13, 10])
               + [13, 10]
  {
    hide Utf8, Encode, FormatAuthority;
  }

  /** The target and the decoded login. */
  datatype ProxyView = ProxyView(authority: seq<byte>, login: Option<seq<byte>>)

  function TokenLength(s: seq<byte>): (n: nat)
    ensures n <= |s|
    ensures forall i :: 0 <= i < n ==> s[i] > 32
    ensures n < |s| ==> s[n] <= 32
  {
    if s == [] || s[0] <= 32 then 0 else 1 + TokenLength(s[1..])
  }

  /** How a proxy reads the request: the target ends at the first space or control character. */
  function ReadByProxy(s: seq<byte>): Option<ProxyView> {
    if !(CONNECT <= s) then None
    else
      var rest := s[|CONNECT|..];
      var n := TokenLength(rest);
      var authority := rest[..n];
      var headers := VERSION_AND_HOST + authority + KEEP_ALIVE;
      if !(headers <= rest[n..]) then None
      else ReadAuthorization(authority, rest[n..][|headers|..])
  }

  function ReadAuthorization(authority: seq<byte>, s: seq<byte>): Option<ProxyView> {
    if s == CRLF then Some(ProxyView(authority, None))
    else if !(AUTHORIZATION <= s) then None
    else
      var rest := s[|AUTHORIZATION|..];
      match FirstAt(rest, CRLF)
      case None => None
      case Some(k) =>
        if rest[k..] != BLANK_LINE then None
        else
          match Decode(rest[..k])
          case Err(_) => None
          case Ok(login) => Some(ProxyView(authority, Some(login)))
  }

  predicate IsToken(s: seq<byte>) {
    forall i :: 0 <= i < |s| ==> s[i] > 32
  }

  lemma TokenEnds(a: seq<byte>, rest: seq<byte>)
    requires rest != [] && rest[0] <= 32
    ensures TokenLength(a + rest) <= |a|
    ensures TokenLength(a + rest) == |a| <==> IsToken(a)
  {
    var s := a + rest;
    var n := TokenLength(s);
    assert s[|a|] == rest[0];
    if n == |a| {
      assert forall i :: 0 <= i < |a| ==> a[i] == s[i];
    } else {
      assert s[n] == a[n];
    }
  }

  lemma SymbolsAreNoCR(login: seq<byte>)
    ensures CR !in Encode(login)
  {
  }

  lemma NotAt(s: seq<byte>, d: seq<byte>, i: nat)
    requires i < |s| && d != [] && s[i] != d[0]
    ensures !At(s, d, i)
  {
  }

  lemma FirstBreak(text: seq<byte>)
    requires CR !in text
    ensures FirstAt(text + BLANK_LINE, CRLF) == Some(|text|)
  {
    hide FirstAt;
    var s := text + BLANK_LINE;
    assert s[|text|..|text| + 2] == CRLF;
    forall j | 0 <= j < |text|
      ensures !At(s, CRLF, j)
    {
      assert s[j] == text[j] && text[j] in text;
      NotAt(s, CRLF, j);
    }
    FirstAtIs(s, CRLF, |text|);
  }

  lemma AuthorizationReadsBack(authority: seq<byte>, credentials: Option<Credentials>)
    ensures ReadAuthorization(authority, Authorization(credentials) + CRLF)
            == Some(ProxyView(authority, if credentials.Some? then Some(Login(credentials.value)) else None))
  {
    hide Encode, Decode, AUTHORIZATION, Login, ReadAuthorization;
    match credentials
    case None =>
      assert [] + CRLF == CRLF;
      NoAuthorization(authority);
    case Some(c) =>
      var text := Encode(Login(c));
      assert Authorization(credentials) + CRLF == AUTHORIZATION + (text + BLANK_LINE);
      SymbolsAreNoCR(Login(c));
      DecodeOfEncode(Login(c));
      AuthorizationLine(authority, text);
  }

  lemma NoAuthorization(authority: seq<byte>)
    ensures ReadAuthorization(authority, CRLF) == Some(ProxyView(authority, None))
  {
  }

  lemma AuthorizationLine(authority: seq<byte>, text: seq<byte>)
    requires CR !in text && Decode(text).Ok?
    ensures ReadAuthorization(authority, AUTHORIZATION + (text + BLANK_LINE))
            == Some(ProxyView(authority, Some(Decode(text).value)))
  {
    hide Decode, FirstAt, AUTHORIZATION;
    var s := AUTHORIZATION + (text + BLANK_LINE);
    IntroIsNotBreak();
    assert s[0] != CR;
    FirstBreak(text);
    assert s[|AUTHORIZATION|..] == text + BLANK_LINE;
    assert (text + BLANK_LINE)[|text|..] == BLANK_LINE && (text + BLANK_LINE)[..|text|] == text;
  }

  lemma IntroIsNotBreak()
    ensures AUTHORIZATION != [] && AUTHORIZATION[0] != CR
    ensures VERSION_AND_HOST != [] && VERSION_AND_HOST[0] == 32
  {
    hide Utf8;
    Utf8Starts("Proxy-Authorization: Basic ");
    Utf8Starts(" HTTP/1.1\r\nHost: ");
  }

  /** A proxy reads back the target and the login, exactly when the authority holds no space or
      control character. */
  lemma RequestReadsBack(host: string, port: port16, credentials: Option<Credentials>)
    ensures var authority := Utf8(FormatAuthority(host, port));
            ReadByProxy(Request(host, port, credentials))
            == Some(ProxyView(authority, if credentials.Some? then Some(Login(credentials.value)) else None))
            <==> IsToken(authority)
  {
    hide Utf8, FormatAuthority, Authorization, ReadAuthorization, CONNECT, VERSION_AND_HOST, KEEP_ALIVE, Login, TokenLength;
    var a := Utf8(FormatAuthority(host, port));
    var last := Authorization(credentials) + CRLF;
    var headers := VERSION_AND_HOST + a + KEEP_ALIVE;
    var s := Request(host, port, credentials);
    assert s == CONNECT + (a + (headers + last));
    var rest := s[|CONNECT|..];
    assert rest == a + (headers + last);
    IntroIsNotBreak();
    TokenEnds(a, headers + last);
    if IsToken(a) {
      assert rest[..|a|] == a && rest[|a|..] == headers + last;
      assert (headers + last)[|headers|..] == last;
      AuthorizationReadsBack(a, credentials);
    } else {
      TokenIsTarget(s);
    }
  }

  lemma TokenIsTarget(s: seq<byte>)
    ensures ReadByProxy(s).Some? ==>
              CONNECT <= s && |ReadByProxy(s).value.authority| == TokenLength(s[|CONNECT|..])
  {
    hide CONNECT, VERSION_AND_HOST, KEEP_ALIVE, ReadAuthorization, TokenLength;
    if CONNECT <= s {
      var rest := s[|CONNECT|..];
      var authority := rest[..TokenLength(rest)];
      var headers := VERSION_AND_HOST + authority + KEEP_ALIVE;
      if headers <= rest[|authority|..] {
        AuthorizationKeeps(authority, rest[|authority|..][|headers|..]);
      }
    }
  }

  lemma AuthorizationKeeps(authority: seq<byte>, s: seq<byte>)
    ensures ReadAuthorization(authority, s).Some? ==> ReadAuthorization(authority, s).value.authority == authority
  {
    hide FirstAt, Decode, AUTHORIZATION;
  }

  predicate Visible(s: string) {
    forall i :: 0 <= i < |s| ==> s[i] as int > 32
  }

  lemma VisibleConcat(a: string, b: string)
    ensures Visible(a + b) <==> Visible(a) && Visible(b)
  {
    var s := a + b;
    if Visible(s) {
      assert forall i :: 0 <= i < |a| ==> s[i] == a[i];
      assert forall i :: 0 <= i < |b| ==> s[|a| + i] == b[i];
    }
  }

  /** That depends on the host alone. */
  lemma AuthorityIsToken(host: string, name: string, port: port16)
    requires IsNameOf(name, host)
    ensures IsToken(Utf8(FormatAuthority(host, port))) <==> forall i :: 0 <= i < |name| ==> name[i] as int > 32
  {
    hide Utf8, TrimBrackets, Decimal, Visible, IsToken, IsNameOf;
    NameIsTrimmed(name, host);
    assert Visible(name) <==> forall i :: 0 <= i < |name| ==> name[i] as int > 32 by {
      VisibleMeans(name);
    }
    TokenText(FormatAuthority(host, port));
    DigitsAreVisible(port);
    VisibleConcat(FormatUrlHost(host), ":");
    VisibleConcat(FormatUrlHost(host) + ":", Decimal(port));
    VisibleConcat("[", name);
    VisibleConcat("[" + name, "]");
  }

  lemma VisibleMeans(s: string)
    ensures Visible(s) <==> forall i :: 0 <= i < |s| ==> s[i] as int > 32
  {
  }

  lemma DigitsAreVisible(port: port16)
    ensures Visible(Decimal(port)) && Visible("[") && Visible("]") && Visible(":")
  {
  }

  lemma {:induction false} TokenText(s: string)
    ensures IsToken(Utf8(s)) <==> Visible(s)
  {
    hide IsToken, Visible, Utf8Char;
    if s == "" {
      EmptyToken();
    } else {
      TokenText(s[1..]);
      TokenConcat(Utf8Char(s[0]), Utf8(s[1..]));
      assert s == [s[0]] + s[1..];
      VisibleConcat([s[0]], s[1..]);
      TokenChar(s[0]);
    }
  }

  lemma EmptyToken()
    ensures IsToken([]) && Visible("")
  {
  }

  lemma TokenChar(c: char)
    ensures IsToken(Utf8Char(c)) <==> Visible([c])
  {
    var b := Utf8Char(c);
    if c as int <= 32 {
      assert b[0] <= 32;
      assert [c][0] == c;
    }
  }

  lemma TokenConcat(a: seq<byte>, b: seq<byte>)
    ensures IsToken(a + b) <==> IsToken(a) && IsToken(b)
  {
    var s := a + b;
    if IsToken(s) {
      assert forall i :: 0 <= i < |a| ==> s[i] == a[i];
      assert forall i :: 0 <= i < |b| ==> s[|a| + i] == b[i];
    }
  }

  // ----- The login -----

  const COLON: byte := 58

  /** A login divides at its first colon, section 2 of RFC 7617. */
  function SplitLogin(s: seq<byte>): Option<(seq<byte>, seq<byte>)> {
    if s == [] then None
    else if s[0] == COLON then Some(([], s[1..]))
    else
      match SplitLogin(s[1..])
      case None => None
      case Some((user, password)) => Some(([s[0]] + user, password))
  }

  lemma {:induction false} SplitAtFirst(u: seq<byte>, p: seq<byte>)
    ensures SplitLogin(u + [COLON] + p) == Some((u, p)) <==> COLON !in u
  {
    var s := u + [COLON] + p;
    if u == [] {
      assert s[1..] == p;
    } else if u[0] == COLON {
      assert s[0] == COLON;
    } else {
      assert s[0] == u[0] && s[1..] == u[1..] + [COLON] + p;
      SplitAtFirst(u[1..], p);
      assert u == [u[0]] + u[1..];
      var rest := SplitLogin(s[1..]);
      if rest.Some? && [u[0]] + rest.value.0 == u {
        assert rest.value.0 == u[1..];
      }
    }
  }

  /** The proxy gets user name and password apart exactly when the user name has no colon. */
  lemma LoginReadsBack(c: Credentials)
    ensures SplitLogin(Login(c)) == Some((Utf8(c.username), Utf8(c.password))) <==> ':' !in c.username
  {
    hide Utf8, SplitLogin;
    Utf8Concat(c.username + ":", c.password);
    Utf8Concat(c.username, ":");
    assert Utf8(":") == [COLON] by {
      ColonText();
    }
    Utf8Plain(c.username, ':');
    SplitAtFirst(Utf8(c.username), Utf8(c.password));
  }

  lemma ColonText()
    ensures Utf8(":") == [COLON]
  {
  }

  // ----- The response -----

  predicate IsSpace(b: byte) {
    9 <= b <= 13 || b == 32
  }

  /** The first line, without its line break. */
  function FirstLine(s: seq<byte>): seq<byte> {
    if s == [] || s[0] == 10 || (|s| > 1 && s[0] == 13 && s[1] == 10) then [] else [s[0]] + FirstLine(s[1..])
  }

  function SkipSpaces(s: seq<byte>): seq<byte> {
    if s != [] && IsSpace(s[0]) then SkipSpaces(s[1..]) else s
  }

  function Word(s: seq<byte>): (r: seq<byte>)
    ensures r <= s
  {
    if s == [] || IsSpace(s[0]) then [] else [s[0]] + Word(s[1..])
  }

  function DigitsValue(s: seq<byte>): Option<nat> {
    if s == [] then Some(0)
    else
      var d: int := s[|s| - 1] as int - 48;
      match DigitsValue(s[..|s| - 1])
      case None => None
      case Some(n) => if 0 <= d <= 9 then Some(n * 10 + d) else None
  }

  /** A 16-bit number in decimal, perhaps after a plus sign. */
  function ParseU16(s: seq<byte>): (r: Option<nat>)
    ensures r.Some? ==> r.value <= 65535
  {
    var digits := if s != [] && s[0] == 43 then s[1..] else s;
    if digits == [] then None
    else
      match DigitsValue(digits)
      case None => None
      case Some(n) => if n < 0x10000 then Some(n) else None
  }

  /** The second word of the first line as a number, or else zero. */
  function StatusOf(response: seq<byte>): nat {
    var line := SkipSpaces(FirstLine(response));
    match ParseU16(Word(SkipSpaces(line[|Word(line)|..])))
    case None => 0
    case Some(n) => n
  }

  /** White space other than line breaks. */
  predicate AllSpaces(s: seq<byte>) {
    forall i :: 0 <= i < |s| ==> s[i] in {9, 11, 12, 32}
  }

  /** A status line of section 4 of RFC 9112 gives its code, and so does one with more white space
      or a plus sign. */
  lemma StatusOfStatusLine(lead: seq<byte>, version: seq<byte>, gap: seq<byte>, plus: seq<byte>, code: nat,
                           more: seq<byte>)
    requires AllSpaces(lead) && AllSpaces(gap) && gap != [] && (plus == [] || plus == [43])
    requires version != [] && forall i :: 0 <= i < |version| ==> version[i] !in {9, 10, 11, 12, 13, 32}
    requires 100 <= code <= 999
    requires more != [] && (more[0] == 32 || more[0] == 10 || [13, 10] <= more)
    ensures var word := plus + [48 + code / 100, 48 + code / 10 % 10, 48 + code % 10];
            StatusOf(lead + version + gap + word + more) == code
  {
    hide StatusOf, ParseU16, AllSpaces;
    var digits := [48 + code / 100, 48 + code / 10 % 10, 48 + code % 10];
    ThreeDigits(code);
    StatusOfWord(lead, version, gap, plus + digits, code, more);
  }

  lemma StatusOfWord(lead: seq<byte>, version: seq<byte>, gap: seq<byte>, word: seq<byte>, code: nat, more: seq<byte>)
    requires AllSpaces(lead) && AllSpaces(gap) && gap != [] && version != [] && word != []
    requires forall i :: 0 <= i < |version| ==> version[i] !in {9, 10, 11, 12, 13, 32}
    requires forall i :: 0 <= i < |word| ==> word[i] !in {9, 10, 11, 12, 13, 32}
    requires ParseU16(word) == Some(code)
    requires more != [] && (more[0] == 32 || more[0] == 10 || [13, 10] <= more)
    ensures StatusOf(lead + version + gap + word + more) == code
  {
    hide FirstLine, SkipSpaces, Word, ParseU16, IsSpace, AllSpaces, OneLine;
    SpaceBytes(version);
    SpaceBytes(word);
    LineEnd(more);
    PlainWord(word);
    WordsInLine(lead, version, gap, word);
    FirstLineOf(lead + version + gap + word, more);
    SecondWord(lead, version, gap, word, FirstLine(more));
  }

  /** Only the first line counts. */
  lemma StatusOnFirstLine(version: seq<byte>, end: seq<byte>, more: seq<byte>)
    requires forall i :: 0 <= i < |version| ==> version[i] !in {9, 10, 11, 12, 13, 32}
    requires end == [10] || end == [13, 10]
    ensures StatusOf(version + (end + more)) == 0
  {
    hide FirstLine, Word, IsSpace;
    SpaceBytes(version);
    FirstLineOf(version, end + more);
    assert FirstLine(end + more) == [] by {
      BreakEnds(end, more);
    }
    assert version + [] == version;
    WordOf(version, []);
    assert version[|version|..] == [] && SkipSpaces([]) == [];
    assert Word([]) == [] by {
      WordOf([], []);
    }
  }

  lemma BreakEnds(end: seq<byte>, more: seq<byte>)
    requires end == [10] || end == [13, 10]
    ensures FirstLine(end + more) == []
  {
  }

  lemma SecondWord(lead: seq<byte>, first: seq<byte>, gap: seq<byte>, second: seq<byte>, end: seq<byte>)
    requires AllSpaces(lead) && AllSpaces(gap) && gap != [] && first != [] && second != []
    requires (forall i :: 0 <= i < |first| ==> !IsSpace(first[i])) && forall i :: 0 <= i < |second| ==> !IsSpace(second[i])
    requires end == [] || IsSpace(end[0])
    ensures var line := SkipSpaces(lead + first + gap + second + end);
            Word(SkipSpaces(line[|Word(line)|..])) == second
  {
    hide SkipSpaces, Word, IsSpace;
    var line := first + (gap + (second + end));
    assert lead + first + gap + second + end == lead + line;
    SkipAll(lead, line);
    SpaceBytes(gap);
    WordOf(first, gap + (second + end));
    assert line[|first|..] == gap + (second + end);
    SkipAll(gap, second + end);
    WordOf(second, end);
  }

  predicate OneLine(s: seq<byte>) {
    forall i :: 0 <= i < |s| ==> s[i] != 10 && s[i] != 13
  }

  lemma WordsInLine(lead: seq<byte>, first: seq<byte>, gap: seq<byte>, second: seq<byte>)
    requires AllSpaces(lead) && AllSpaces(gap) && OneLine(second)
    requires forall i :: 0 <= i < |first| ==> first[i] !in {9, 10, 11, 12, 13, 32}
    ensures OneLine(lead + first + gap + second)
  {
    InOneLine(lead, first);
    InOneLine(lead + first, gap);
    InOneLine(lead + first + gap, second);
  }

  lemma PlainWord(s: seq<byte>)
    requires forall i :: 0 <= i < |s| ==> s[i] !in {10, 13}
    ensures OneLine(s)
  {
  }

  lemma InOneLine(a: seq<byte>, b: seq<byte>)
    requires OneLine(a) && OneLine(b)
    ensures OneLine(a + b)
  {
  }

  lemma SpaceBytes(s: seq<byte>)
    ensures forall i :: 0 <= i < |s| ==> (IsSpace(s[i]) <==> s[i] in {9, 10, 11, 12, 13, 32})
  {
  }

  lemma LineEnd(more: seq<byte>)
    requires more != [] && (more[0] == 32 || more[0] == 10 || [13, 10] <= more)
    ensures FirstLine(more) == [] || IsSpace(FirstLine(more)[0])
  {
  }

  lemma {:induction false} SkipAll(spaces: seq<byte>, rest: seq<byte>)
    requires AllSpaces(spaces) && rest != [] && !IsSpace(rest[0])
    ensures SkipSpaces(spaces + rest) == rest
  {
    if spaces == [] {
      assert [] + rest == rest;
    } else {
      assert spaces[0] in {9, 11, 12, 32} && (spaces + rest)[1..] == spaces[1..] + rest;
      SkipAll(spaces[1..], rest);
    }
  }

  lemma ThreeDigits(code: nat)
    requires 100 <= code <= 999
    ensures var s: seq<byte> := [48 + code / 100, 48 + code / 10 % 10, 48 + code % 10];
            && ParseU16(s) == Some(code) && ParseU16([43] + s) == Some(code) && [] + s == s
  {
    var s: seq<byte> := [48 + code / 100, 48 + code / 10 % 10, 48 + code % 10];
    assert s[..2][..1] == s[..1] && s[..1][..0] == [] && ([43] + s)[1..] == s;
    assert DigitsValue(s[..1]) == Some(code / 100);
    assert DigitsValue(s[..2]) == Some(code / 10);
  }

  lemma {:induction false} WordOf(word: seq<byte>, rest: seq<byte>)
    requires forall i :: 0 <= i < |word| ==> !IsSpace(word[i])
    requires rest == [] || IsSpace(rest[0])
    ensures Word(word + rest) == word
    ensures word != [] ==> SkipSpaces(word + rest) == word + rest
  {
    if word != [] {
      assert (word + rest)[1..] == word[1..] + rest;
      WordOf(word[1..], rest);
    } else {
      assert word + rest == rest;
    }
  }

  lemma {:induction false} FirstLineOf(start: seq<byte>, more: seq<byte>)
    requires OneLine(start)
    ensures FirstLine(start + more) == start + FirstLine(more)
  {
    if start != [] {
      assert (start + more)[1..] == start[1..] + more;
      FirstLineOf(start[1..], more);
    } else {
      assert start + more == more;
    }
  }

  // ----- The handshake -----

  /** A response head ends within so many bytes. */
  predicate HeadEndsBy(s: seq<byte>, length: nat) {
    exists j :: 0 <= j <= length - 4 && At(s, BLANK_LINE, j)
  }

  /** What each error says about the proxy's bytes. */
  predicate Explains(e: ProxyError, s: seq<byte>, reliable: bool) {
    match e
    case SendFailed => !reliable
    case Truncated => !HeadEndsBy(s, |s|)
    case ResponseTooLarge => |s| >= 8192 && !HeadEndsBy(s, 8192)
    case ConnectionRefused => HeadEndsBy(s, 8192)
    case _ => false
  }

  /** The proxy grants the connection in a response head of so many bytes. */
  ghost predicate Grants(s: seq<byte>, length: nat) {
    && 4 <= length <= 8192 && FirstAt(s, BLANK_LINE) == Some(length - 4)
    && 200 <= StatusOf(s[..length]) < 300
  }

  /** On success the response head has been read and nothing after it; without a failing write,
      success is exactly a first response head that is short enough and grants the connection. */
  method EstablishHttpConnect(stream: Stream, host: string, port: port16, credentials: Option<Credentials>)
    returns (r: Option<ProxyError>, ghost length: nat)
    modifies stream
    ensures r.None? ==>
              && Grants(old(stream.incoming), length)
              && length <= |old(stream.incoming)| && stream.incoming == old(stream.incoming)[length..]
              && stream.written == old(stream.written) + Request(host, port, credentials)
    ensures r.Some? ==> Explains(r.value, old(stream.incoming), stream.reliable)
    ensures r.Some? && r.value != SendFailed ==> forall n :: !Grants(old(stream.incoming), n)
  {
    hide Request, FirstAt, StatusOf, At, Login, Authorization;
    ghost var s := stream.incoming;
    length := 0;
    var request := Request(host, port, credentials);
    var ok := stream.WriteAll(request);
    if !ok {
      return Some(SendFailed), 0;
    }
    var response: seq<byte> := [];
    while |response| < MAX_PROXY_RESPONSE_BYTES
      invariant |response| <= MAX_PROXY_RESPONSE_BYTES && s == response + stream.incoming
      invariant stream.written == old(stream.written) + request
      invariant forall j :: 0 <= j <= |response| - 4 ==> !At(s, BLANK_LINE, j)
    {
      ghost var left := stream.incoming;
      var one := stream.ReadExact(1);
      if one.None? {
        assert left == [] && s == response;
        NoHead(s, |response|);
        return Some(Truncated), 0;
      }
      var before := response;
      response := response + one.value;
      assert s == response + stream.incoming;
      HeadEnds(s, response);
      if |response| >= 4 && response[|response| - 4..] == BLANK_LINE {
        break;
      }
    }
    HeadEnds(s, response);
    FirstAtFinds(s, BLANK_LINE, 0);
    if !(|response| >= 4 && response[|response| - 4..] == BLANK_LINE) {
      return Some(ResponseTooLarge), 0;
    }
    FirstAtIs(s, BLANK_LINE, |response| - 4);
    assert s[..|response|] == response;
    var status := StatusOf(response);
    if !(200 <= status < 300) {
      return Some(ConnectionRefused), 0;
    }
    length := |response|;
    r := None;
  }

  lemma HeadEnds(s: seq<byte>, response: seq<byte>)
    requires response <= s
    ensures At(s, BLANK_LINE, |response| - 4) <==> |response| >= 4 && response[|response| - 4..] == BLANK_LINE
  {
  }

  lemma NoHead(s: seq<byte>, n: nat)
    requires n == |s| && forall j :: 0 <= j <= n - 4 ==> !At(s, BLANK_LINE, j)
    ensures FirstAt(s, BLANK_LINE).None?
  {
    var r := FirstAt(s, BLANK_LINE);
    FirstAtFinds(s, BLANK_LINE, 0);
  }
}
