/** The SOCKS5 handshake, src-tauri/src/services/network_proxy_service.rs, with sections 3, 4
    and 6 of RFC 1928 and section 2 of RFC 1929. */
module ProxySocks5 {
  import opened Bytes
  import opened Utf8Text
  import opened ProxyStream

  const NO_AUTHENTICATION: byte := 0
  const USERNAME_PASSWORD: byte := 2

  // ----- What a proxy answers when it agrees -----

  datatype BoundAddress = V4(octets: seq<byte>) | V6(groups: seq<byte>) | Domain(name: seq<byte>)

  datatype Answer = Answer(chosen: byte, reserved: byte, address: BoundAddress, port: seq<byte>)

  predicate WellFormed(a: Answer) {
    && (a.chosen == NO_AUTHENTICATION || a.chosen == USERNAME_PASSWORD)
    && |a.port| == 2
    && match a.address
       case V4(octets) => |octets| == 4
       case V6(groups) => |groups| == 16
       case Domain(name) => |name| < 256
  }

  function PrintSelection(a: Answer): seq<byte> {
    [5, a.chosen] + if a.chosen == USERNAME_PASSWORD then [1, 0] else []
  }

  function PrintAddress(a: BoundAddress): seq<byte>
    requires a.Domain? ==> |a.name| < 256
  {
    match a
    case V4(octets) => [1] + octets
    case V6(groups) => [4] + groups
    case Domain(name) => [3, |name|] + name
  }

  /** The selected method, the outcome of the authentication if there is one, and the reply. */
  function PrintAnswer(a: Answer): seq<byte>
    requires WellFormed(a)
  {
    PrintSelection(a) + PrintReply(a)
  }

  /** The stream begins with such an answer. */
  ghost predicate Agrees(stream: seq<byte>, a: Answer, rest: seq<byte>) {
    WellFormed(a) && stream == PrintAnswer(a) + rest
  }

  function PrintReply(a: Answer): seq<byte>
    requires WellFormed(a)
  {
    [5, 0, a.reserved] + PrintAddress(a.address) + a.port
  }

  function Payload(a: BoundAddress): seq<byte> {
    match a
    case V4(octets) => octets
    case V6(groups) => groups
    case Domain(name) => name
  }

  function AddressStart(a: BoundAddress): nat {
    if a.Domain? then 5 else 4
  }

  lemma AddressFirst(a: Answer, rest: seq<byte>)
    requires WellFormed(a)
    ensures var s, k, n := PrintReply(a) + rest, AddressStart(a.address), |Payload(a.address)|;
            && |s| >= k + n + 2 && s[0] == 5 && s[1] == 0 && s[2] == a.reserved
            && s[3] == (match a.address case V4(_) => 1 case V6(_) => 4 case Domain(_) => 3)
            && (a.address.Domain? ==> s[4] == n)
            && s[k..k + n] == Payload(a.address) && s[k + n..k + n + 2] == a.port && s[k + n + 2..] == rest
  {
  }

  function AddressOf(kind: byte, payload: seq<byte>): BoundAddress {
    if kind == 1 then V4(payload) else if kind == 4 then V6(payload) else Domain(payload)
  }

  /** Where the address starts in a reply, and its length. */
  function AddressSpan(s: seq<byte>): Option<(nat, nat)>
    requires |s| >= 4
  {
    if s[3] == 1 then Some((4, 4))
    else if s[3] == 4 then Some((4, 16))
    else if s[3] == 3 && |s| > 4 then Some((5, s[4] as nat))
    else None
  }

  function ParseReply(chosen: byte, s: seq<byte>): Option<(Answer, seq<byte>)> {
    if |s| < 4 || s[0] != 5 || s[1] != 0 then None
    else
      match AddressSpan(s)
      case None => None
      case Some((k, n)) =>
        if |s| < k + n + 2 then None
        else Some((Answer(chosen, s[2], AddressOf(s[3], s[k..k + n]), s[k + n..k + n + 2]), s[k + n + 2..]))
  }

  /** Reads an answer off a stream. */
  function ParseAnswer(s: seq<byte>): Option<(Answer, seq<byte>)> {
    if |s| < 2 || s[0] != 5 then None
    else if s[1] == NO_AUTHENTICATION then ParseReply(s[1], s[2..])
    else if s[1] == USERNAME_PASSWORD && |s| >= 4 && s[2..4] == [1, 0] then ParseReply(s[1], s[4..])
    else None
  }

  lemma PrintedReplyParses(a: Answer, rest: seq<byte>)
    requires WellFormed(a)
    ensures ParseReply(a.chosen, PrintReply(a) + rest) == Some((a, rest))
  {
    hide PrintReply;
    AddressFirst(a, rest);
  }

  lemma ReplyPrinted(a: Answer)
    requires WellFormed(a)
    ensures PrintReply(a) == (match a.address
                              case V4(_) => [5, 0, a.reserved, 1]
                              case V6(_) => [5, 0, a.reserved, 4]
                              case Domain(name) => [5, 0, a.reserved, 3, |name|])
                             + Payload(a.address) + a.port
  {
  }

  lemma ParsedReplyPrints(chosen: byte, s: seq<byte>)
    requires ParseReply(chosen, s).Some? && (chosen == NO_AUTHENTICATION || chosen == USERNAME_PASSWORD)
    ensures var (a, rest) := ParseReply(chosen, s).value;
            a.chosen == chosen && WellFormed(a) && PrintReply(a) + rest == s
  {
    hide PrintReply;
    var (k, n) := AddressSpan(s).value;
    ReplyPrinted(ParseReply(chosen, s).value.0);
    assert s == s[..k] + s[k..k + n] + s[k + n..k + n + 2] + s[k + n + 2..];
    if k == 5 {
      assert s[..k] == [5, 0, s[2], 3, s[4]];
    } else {
      assert s[..k] == [5, 0, s[2], s[3]];
    }
  }

  /** Reading finds exactly the answer that the stream begins with. */
  lemma ParsesWhatAgrees(s: seq<byte>, a: Answer, rest: seq<byte>)
    ensures Agrees(s, a, rest) <==> ParseAnswer(s) == Some((a, rest))
  {
    hide PrintReply, ParseReply;
    if Agrees(s, a, rest) {
      assert s == PrintSelection(a) + (PrintReply(a) + rest);
      PrintedReplyParses(a, rest);
      assert s[|PrintSelection(a)|..] == PrintReply(a) + rest;
    }
    if ParseAnswer(s) == Some((a, rest)) {
      var k := if s[1] == USERNAME_PASSWORD then 4 else 2;
      ParsedReplyPrints(s[1], s[k..]);
      assert s[..k] == PrintSelection(a);
      assert s == s[..k] + s[k..];
      assert PrintAnswer(a) + rest == PrintSelection(a) + (PrintReply(a) + rest);
    }
  }

  // ----- What the client sends, and how a proxy reads it -----

  function Greeting(credentials: Option<Credentials>): seq<byte> {
    if credentials.Some? then [5, 2, NO_AUTHENTICATION, USERNAME_PASSWORD] else [5, 1, NO_AUTHENTICATION]
  }

  predicate FitCredentials(c: Credentials) {
    0 < |Utf8(c.username)| < 256 && |Utf8(c.password)| < 256
  }

  function AuthenticationRequest(c: Credentials): seq<byte>
    requires FitCredentials(c)
  {
    [1, |Utf8(c.username)|] + Utf8(c.username) + [|Utf8(c.password)|] + Utf8(c.password)
  }

  predicate FitHost(host: string) {
    0 < |Utf8(TrimBrackets(host))| < 256
  }

  function ConnectRequest(host: string, port: port16): seq<byte>
    requires FitHost(host)
  {
    var name := Utf8(TrimBrackets(host));
    [5, 1, 0, 3, |name|] + name + [port / 256, port % 256]
  }

  /** All that the client sends for the method that was chosen. */
  function Sent(host: string, port: port16, credentials: Option<Credentials>, chosen: byte): seq<byte>
    requires FitHost(host) && (chosen == USERNAME_PASSWORD ==> credentials.Some? && FitCredentials(credentials.value))
  {
    Greeting(credentials)
    + (if chosen == USERNAME_PASSWORD then AuthenticationRequest(credentials.value) else [])
    + ConnectRequest(host, port)
  }

  datatype ProxyView = ProxyView(methods: seq<byte>, login: Option<(seq<byte>, seq<byte>)>, name: seq<byte>, port: nat)

  /** How a proxy that has chosen a method reads what it is sent. */
  function ReadByProxy(s: seq<byte>, chosen: byte): Option<ProxyView> {
    if |s| < 2 || s[0] != 5 then None
    else
      var k: int := s[1] as int + 2;
      if |s| < k then None
      else if chosen == USERNAME_PASSWORD then
        match ReadLogin(s[k..])
        case None => None
        case Some((login, more)) => ReadConnect(s[2..k], Some(login), more)
      else ReadConnect(s[2..k], None, s[k..])
  }

  function ReadLogin(s: seq<byte>): Option<((seq<byte>, seq<byte>), seq<byte>)> {
    if |s| < 2 || s[0] != 1 then None
    else
      var k: int := s[1] as int + 2;
      if |s| < k + 1 then None
      else
        var end: int := k + 1 + s[k] as int;
        if |s| < end then None else Some(((s[2..k], s[k + 1..end]), s[end..]))
  }

  function ReadConnect(methods: seq<byte>, login: Option<(seq<byte>, seq<byte>)>, s: seq<byte>): Option<ProxyView> {
    if |s| < 5 || s[..4] != [5, 1, 0, 3] then None
    else
      var k: int := s[4] as int + 5;
      if |s| != k + 2 then None
      else Some(ProxyView(methods, login, s[5..k], s[k] as int * 256 + s[k + 1] as int))
  }

  lemma LoginReadsBack(c: Credentials, rest: seq<byte>)
    requires FitCredentials(c)
    ensures ReadLogin(AuthenticationRequest(c) + rest) == Some(((Utf8(c.username), Utf8(c.password)), rest))
  {
    hide Utf8;
    var u, p := Utf8(c.username), Utf8(c.password);
    var s := AuthenticationRequest(c) + rest;
    assert s == [1, |u|] + u + [|p|] + p + rest;
    assert s[2..2 + |u|] == u && s[2 + |u|] == |p|;
    assert s[3 + |u|..3 + |u| + |p|] == p && s[3 + |u| + |p|..] == rest;
  }

  lemma ConnectReadsBack(methods: seq<byte>, login: Option<(seq<byte>, seq<byte>)>, host: string, port: port16)
    requires FitHost(host)
    ensures ReadConnect(methods, login, ConnectRequest(host, port))
            == Some(ProxyView(methods, login, Utf8(TrimBrackets(host)), port))
  {
  }

  lemma SentParts(host: string, port: port16, credentials: Option<Credentials>, chosen: byte)
    requires FitHost(host) && (chosen == USERNAME_PASSWORD ==> credentials.Some? && FitCredentials(credentials.value))
    ensures ReadByProxy(Sent(host, port, credentials, chosen), chosen)
            == Some(ProxyView(
                 if credentials.Some? then [0, 2] else [0],
                 if chosen == 2 then Some((Utf8(credentials.value.username), Utf8(credentials.value.password))) else None,
                 Utf8(TrimBrackets(host)), port))
  {
    hide Utf8, TrimBrackets, ConnectRequest, AuthenticationRequest, ReadLogin, ReadConnect;
    var greeting, request := Greeting(credentials), ConnectRequest(host, port);
    var methods := if credentials.Some? then [NO_AUTHENTICATION, USERNAME_PASSWORD] else [NO_AUTHENTICATION];
    var login := if chosen == USERNAME_PASSWORD then AuthenticationRequest(credentials.value) else [];
    var s := Sent(host, port, credentials, chosen);
    assert s == greeting + (login + request);
    assert s[2..2 + s[1]] == methods && s[2 + s[1]..] == login + request;
    if chosen == USERNAME_PASSWORD {
      LoginReadsBack(credentials.value, request);
      ConnectReadsBack(methods, Some((Utf8(credentials.value.username), Utf8(credentials.value.password))), host, port);
    } else {
      assert login + request == request;
      ConnectReadsBack(methods, None, host, port);
    }
  }

  /** What is sent tells the proxy the host, the port and the credentials, and nothing else. The
      name is the host without the brackets around it. */
  lemma SentReadsBack(host: string, name: string, port: port16, credentials: Option<Credentials>, chosen: byte)
    requires IsNameOf(name, host)
    requires FitHost(host) && (chosen == USERNAME_PASSWORD ==> credentials.Some? && FitCredentials(credentials.value))
    ensures ReadByProxy(Sent(host, port, credentials, chosen), chosen)
            == Some(ProxyView(
                 if credentials.Some? then [0, 2] else [0],
                 if chosen == 2 then Some((Utf8(credentials.value.username), Utf8(credentials.value.password))) else None,
                 Utf8(name), port))
    ensures 0 < |Utf8(name)| < 256
  {
    hide Utf8, TrimBrackets, Sent, ReadByProxy, IsNameOf;
    NameIsTrimmed(name, host);
    SentParts(host, port, credentials, chosen);
  }

  // ----- The handshake -----

  /** A host fits if the bytes of its name can be counted by one byte. */
  lemma FitHostMeans(host: string, name: string)
    requires IsNameOf(name, host)
    ensures FitHost(host) <==> 1 <= |Utf8(name)| <= 255
  {
    hide Utf8, TrimBrackets, IsNameOf;
    NameIsTrimmed(name, host);
  }

  predicate Eligible(host: string, credentials: Option<Credentials>, chosen: byte) {
    FitHost(host) && (chosen == USERNAME_PASSWORD ==> credentials.Some? && FitCredentials(credentials.value))
  }

  predicate RefusesAt(s: seq<byte>, i: nat) {
    |s| >= i + 4 && (s[i] != 5 || s[i + 1] != 0)
  }

  predicate NoAddressAt(s: seq<byte>, i: nat) {
    |s| >= i + 4 && s[i + 3] != 1 && s[i + 3] != 3 && s[i + 3] != 4
  }

  /** What each error says about the proxy's bytes and about what was to be sent. */
  predicate Explains(e: ProxyError, s: seq<byte>, host: string, credentials: Option<Credentials>, reliable: bool) {
    match e
    case SendFailed => !reliable
    case Truncated => true
    case BadVersion => |s| >= 2 && s[0] != 5
    case MethodRefused => [5, 255] <= s
    case UnknownMethod => |s| >= 2 && s[0] == 5 && s[1] !in {0, 2, 255}
    case CredentialsNeeded => [5, 2] <= s && credentials.None?
    case BadCredentialLength => [5, 2] <= s && credentials.Some? && !FitCredentials(credentials.value)
    case AuthenticationFailed => [5, 2] <= s && |s| >= 4 && s[2..4] != [1, 0]
    case BadHostLength => !FitHost(host)
    case ConnectionRefused => RefusesAt(s, 2) || ([5, 2, 1, 0] <= s && RefusesAt(s, 4))
    case UnknownAddressType => NoAddressAt(s, 2) || ([5, 2, 1, 0] <= s && NoAddressAt(s, 4))
    case ResponseTooLarge => false
  }

  method AuthenticateSocks5(stream: Stream, credentials: Option<Credentials>) returns (r: Option<ProxyError>)
    modifies stream
    ensures r.None? ==>
              && credentials.Some? && FitCredentials(credentials.value)
              && stream.written == old(stream.written) + AuthenticationRequest(credentials.value)
              && old(stream.incoming) == [1, 0] + stream.incoming
    ensures r.Some? ==>
              match r.value
              case SendFailed => !stream.reliable
              case CredentialsNeeded => credentials.None?
              case BadCredentialLength => credentials.Some? && !FitCredentials(credentials.value)
              case AuthenticationFailed => |old(stream.incoming)| >= 2 && old(stream.incoming)[..2] != [1, 0]
              case Truncated => |old(stream.incoming)| < 2
              case _ => false
    ensures r.Some? && r.value != SendFailed ==>
              credentials.None? || !FitCredentials(credentials.value) || !([1, 0] <= old(stream.incoming))
  {
    if credentials.None? {
      return Some(CredentialsNeeded);
    }
    var username, password := Utf8(credentials.value.username), Utf8(credentials.value.password);
    if username == [] || |username| > 255 || |password| > 255 {
      return Some(BadCredentialLength);
    }
    var request := [1, |username|] + username;
    request := request + [|password|];
    request := request + password;
    var ok := stream.WriteAll(request);
    if !ok {
      return Some(SendFailed);
    }
    var response := stream.ReadExact(2);
    if response.None? {
      return Some(Truncated);
    }
    if response.value != [1, 0] {
      return Some(AuthenticationFailed);
    }
    r := None;
  }

  /** On success the proxy's answer has been read to its last byte and no further, and the proxy
      has been sent what `SentReadsBack` reads; the only other cause of failure than a failing
      write is that the stream does not begin with an answer, or that host or credentials do not
      fit the protocol. */
  method EstablishSocks5Connect(stream: Stream, host: string, port: port16, credentials: Option<Credentials>)
    returns (r: Option<ProxyError>, ghost answer: Answer)
    modifies stream
    ensures r.None? ==>
              && Agrees(old(stream.incoming), answer, stream.incoming)
              && Eligible(host, credentials, answer.chosen)
              && stream.written == old(stream.written) + Sent(host, port, credentials, answer.chosen)
    ensures r.Some? ==> Explains(r.value, old(stream.incoming), host, credentials, stream.reliable)
    ensures r.Some? && r.value != SendFailed ==>
              forall a, rest :: Agrees(old(stream.incoming), a, rest) ==> !Eligible(host, credentials, a.chosen)
  {
    hide Utf8, TrimBrackets, Agrees, ParseAnswer, ParseReply, AuthenticationRequest, FitCredentials;
    answer := Answer(0, 0, V4([]), []);
    ghost var s := stream.incoming;
    forall a, rest
      ensures Agrees(s, a, rest) <==> ParseAnswer(s) == Some((a, rest))
    {
      ParsesWhatAgrees(s, a, rest);
    }
    var ok := stream.WriteAll(if credentials.Some? then [5, 2, 0, 2] else [5, 1, 0]);
    if !ok {
      return Some(SendFailed), answer;
    }
    var greeting := stream.ReadExact(2);
    AnswerStarts(s);
    if greeting.None? {
      return Some(Truncated), answer;
    }
    ghost var afterGreeting := stream.incoming;
    assert s[0] == greeting.value[0] && s[1] == greeting.value[1] && s[2..] == afterGreeting;
    if greeting.value[0] != 5 {
      return Some(BadVersion), answer;
    }
    ghost var login: seq<byte> := [];
    ghost var chosen: byte := greeting.value[1];
    if greeting.value[1] == 2 {
      AuthenticationNext(s);
      var failed := AuthenticateSocks5(stream, credentials);
      if failed.Some? {
        return failed, answer;
      }
      login := AuthenticationRequest(credentials.value);
      assert s[4..] == stream.incoming;
    } else if greeting.value[1] == 0xFF {
      return Some(MethodRefused), answer;
    } else if greeting.value[1] != 0 {
      return Some(UnknownMethod), answer;
    }
    ghost var reply := stream.incoming;
    ReplyNext(s, reply);
    var name := Utf8(TrimBrackets(host));
    if name == [] || |name| > 255 {
      return Some(BadHostLength), answer;
    }
    var request := [5, 1, 0, 3, |name|] + name;
    request := request + [port / 256, port % 256];
    ok := stream.WriteAll(request);
    if !ok {
      return Some(SendFailed), answer;
    }
    assert stream.written == old(stream.written) + Greeting(credentials) + login + request;
    SentInOrder(old(stream.written), Greeting(credentials), login, request);
    var failed := ReadReply(stream, chosen);
    if failed.Some? {
      return failed, answer;
    }
    answer := ParseAnswer(s).value.0;
    r := None;
  }

  /** Reads the reply to the connect request. */
  method ReadReply(stream: Stream, ghost chosen: byte) returns (r: Option<ProxyError>)
    modifies stream`incoming
    ensures r.None? <==> ParseReply(chosen, old(stream.incoming)).Some?
    ensures r.None? ==> stream.incoming == ParseReply(chosen, old(stream.incoming)).value.1
    ensures r.Some? ==>
              match r.value
              case ConnectionRefused => RefusesAt(old(stream.incoming), 0)
              case UnknownAddressType => NoAddressAt(old(stream.incoming), 0)
              case Truncated => true
              case _ => false
  {
    hide ParseReply;
    ghost var reply := stream.incoming;
    var header := stream.ReadExact(4);
    ReplyStarts(chosen, reply);
    if header.None? {
      return Some(Truncated);
    }
    assert reply[..4] == header.value && reply[4..] == stream.incoming;
    if header.value[0] != 5 || header.value[1] != 0 {
      return Some(ConnectionRefused);
    }
    var n: nat;
    if header.value[3] == 1 {
      n := 4;
    } else if header.value[3] == 4 {
      n := 16;
    } else if header.value[3] == 3 {
      var length := stream.ReadExact(1);
      if length.None? {
        return Some(Truncated);
      }
      assert reply[4] == length.value[0];
      n := length.value[0];
    } else {
      return Some(UnknownAddressType);
    }
    var remainder := stream.ReadExact(n + 2);
    if remainder.None? {
      return Some(Truncated);
    }
    ReplyComplete(chosen, reply, stream.incoming, n);
    r := None;
  }

  lemma SentInOrder(a: seq<byte>, b: seq<byte>, c: seq<byte>, d: seq<byte>)
    ensures a + b + c + d == a + (b + c + d)
  {
  }

  lemma AnswerStarts(s: seq<byte>)
    ensures ParseAnswer(s).Some? ==> |s| >= 2 && s[0] == 5 && (s[1] == 0 || s[1] == 2)
    ensures ParseAnswer(s).Some? ==> ParseAnswer(s).value.0.chosen == s[1]
  {
  }

  lemma AuthenticationNext(s: seq<byte>)
    requires |s| >= 2 && s[1] == 2
    ensures ParseAnswer(s).Some? ==> [1, 0] <= s[2..]
  {
  }

  lemma ReplyNext(s: seq<byte>, reply: seq<byte>)
    requires |s| >= 2 && s[0] == 5
    requires if s[1] == 0 then reply == s[2..] else s[1] == 2 && s[2..] == [1, 0] + reply
    ensures ParseAnswer(s) == ParseReply(s[1], reply)
  {
    hide ParseReply;
    if s[1] == 2 {
      assert s[2..4] == s[2..][..2] && s[4..] == s[2..][2..] == reply;
    }
  }

  lemma ReplyStarts(chosen: byte, s: seq<byte>)
    ensures ParseReply(chosen, s).Some? ==>
              |s| >= 4 && s[0] == 5 && s[1] == 0 && AddressSpan(s).Some?
              && |s| >= AddressSpan(s).value.0 + AddressSpan(s).value.1 + 2
  {
  }

  lemma ReplyComplete(chosen: byte, s: seq<byte>, rest: seq<byte>, n: nat)
    requires |s| >= 4 && s[0] == 5 && s[1] == 0 && AddressSpan(s).Some? && AddressSpan(s).value.1 == n
    requires |s| >= AddressSpan(s).value.0 + n + 2 && rest == s[AddressSpan(s).value.0 + n + 2..]
    ensures ParseReply(chosen, s).Some? && ParseReply(chosen, s).value.1 == rest
    ensures ParseReply(chosen, s).value.0.chosen == chosen
  {
  }
}
