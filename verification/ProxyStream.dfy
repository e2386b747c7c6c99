/** The connection to a proxy, src-tauri/src/services/network_proxy_service.rs. */
module ProxyStream {
  import opened Bytes

  type port16 = p: int | 0 <= p < 0x10000

  datatype ProxyError =
    | SendFailed
    | Truncated
    | BadVersion
    | MethodRefused
    | UnknownMethod
    | CredentialsNeeded
    | BadCredentialLength
    | AuthenticationFailed
    | BadHostLength
    | ConnectionRefused
    | UnknownAddressType
    | ResponseTooLarge

  datatype Credentials = Credentials(username: string, password: string)

  /** Square brackets around a host are dropped. */
  function TrimBrackets(host: string): (r: string)
    ensures r == "" || (r[0] != '[' && r[0] != ']')
    ensures r == "" || (r[|r| - 1] != '[' && r[|r| - 1] != ']')
  {
    if host == "" then ""
    else if host[0] == '[' || host[0] == ']' then TrimBrackets(host[1..])
    else if host[|host| - 1] == '[' || host[|host| - 1] == ']' then TrimBrackets(host[..|host| - 1])
    else host
  }

  predicate AllBrackets(s: string) {
    forall i :: 0 <= i < |s| ==> s[i] == '[' || s[i] == ']'
  }

  ghost predicate Wraps(name: string, host: string) {
    exists a, b :: AllBrackets(a) && AllBrackets(b) && host == a + name + b
  }

  lemma WrappedMore(name: string, host: string, c: char)
    requires c == '[' || c == ']'
    ensures Wraps(name, name)
    ensures Wraps(name, host) ==> Wraps(name, [c] + host) && Wraps(name, host + [c])
  {
    assert AllBrackets("") && name == "" + name + "";
    if a, b :| AllBrackets(a) && AllBrackets(b) && host == a + name + b {
      assert AllBrackets([c] + a) && [c] + host == [c] + a + name + b;
      assert AllBrackets(b + [c]) && host + [c] == a + name + (b + [c]);
    }
  }

  /** The name is the host without the brackets at its ends, and nothing else is gone. */
  ghost predicate IsNameOf(name: string, host: string) {
    && Wraps(name, host)
    && (name != "" ==> && name[0] != '[' && name[0] != ']'
                       && name[|name| - 1] != '[' && name[|name| - 1] != ']')
  }

  lemma TrimStep(host: string)
    ensures TrimBrackets(host)
            == if host == "" then ""
               else if host[0] == '[' || host[0] == ']' then TrimBrackets(host[1..])
               else if host[|host| - 1] == '[' || host[|host| - 1] == ']' then TrimBrackets(host[..|host| - 1])
               else host
  {
  }

  lemma {:induction false} TrimmedIsWrapped(host: string)
    ensures Wraps(TrimBrackets(host), host)
    decreases |host|
  {
    hide Wraps, TrimBrackets;
    TrimStep(host);
    var n := |host| - 1;
    if host == "" {
      WrappedMore("", "", '[');
    } else if host[0] == '[' || host[0] == ']' {
      TrimmedIsWrapped(host[1..]);
      WrappedMore(TrimBrackets(host), host[1..], host[0]);
      assert host == [host[0]] + host[1..];
    } else if host[n] == '[' || host[n] == ']' {
      TrimmedIsWrapped(host[..n]);
      WrappedMore(TrimBrackets(host), host[..n], host[n]);
      assert host == host[..n] + [host[n]];
    } else {
      WrappedMore(host, "", '[');
    }
  }

  lemma TrimmedIsName(host: string)
    ensures IsNameOf(TrimBrackets(host), host)
  {
    hide Wraps;
    TrimmedIsWrapped(host);
  }

  /** A host has one name only. */
  lemma NameIsTrimmed(name: string, host: string)
    requires IsNameOf(name, host)
    ensures name == TrimBrackets(host)
  {
    hide TrimBrackets, AllBrackets;
    TrimmedIsName(host);
    var a, b :| AllBrackets(a) && AllBrackets(b) && host == a + name + b;
    var c, d :| AllBrackets(c) && AllBrackets(d) && host == c + TrimBrackets(host) + d;
    SameName(a, name, b, c, TrimBrackets(host), d);
  }

  lemma SameName(a: string, x: string, b: string, c: string, y: string, d: string)
    requires AllBrackets(a) && AllBrackets(b) && AllBrackets(c) && AllBrackets(d)
    requires a + x + b == c + y + d
    requires x != "" ==> x[0] != '[' && x[0] != ']' && x[|x| - 1] != '[' && x[|x| - 1] != ']'
    requires y != "" ==> y[0] != '[' && y[0] != ']' && y[|y| - 1] != '[' && y[|y| - 1] != ']'
    ensures x == y
  {
    var s := a + x + b;
    if x != "" {
      OuterPart(a, x, b, c, y, d);
    } else if y != "" {
      OuterPart(c, y, d, a, x, b);
    }
  }

  lemma OuterPart(a: string, x: string, b: string, c: string, y: string, d: string)
    requires AllBrackets(a) && AllBrackets(b) && AllBrackets(c) && AllBrackets(d)
    requires a + x + b == c + y + d && x != ""
    requires x[0] != '[' && x[0] != ']' && x[|x| - 1] != '[' && x[|x| - 1] != ']'
    requires y != "" ==> y[0] != '[' && y[0] != ']' && y[|y| - 1] != '[' && y[|y| - 1] != ']'
    ensures x == y
  {
    var s := a + x + b;
    var first, last := |a|, |a| + |x| - 1;
    assert s[first] == x[0] && s[last] == x[|x| - 1];
    assert forall i :: 0 <= i < |c| ==> s[i] == c[i];
    assert forall i :: |c| + |y| <= i < |s| ==> s[i] == d[i - |c| - |y|];
    assert |c| <= first && last < |c| + |y|;
    assert y != "";
    assert s[|c|] == y[0] && s[|c| + |y| - 1] == y[|y| - 1];
    assert forall i :: 0 <= i < |a| ==> s[i] == a[i];
    assert forall i :: last < i < |s| ==> s[i] == b[i - last - 1];
    assert |c| == |a| && |y| == |x|;
    assert x == s[|a|..|a| + |x|] == y;
  }

  /** What the proxy sends up to the end of the connection, less what was read, and what was
      sent to it. */
  class Stream {
    /** No write fails. */
    const reliable: bool
    var incoming: seq<byte>
    var written: seq<byte>

    constructor (sent: seq<byte>, reliable: bool)
      ensures incoming == sent && written == [] && this.reliable == reliable
    {
      incoming, written, this.reliable := sent, [], reliable;
    }

    method WriteAll(data: seq<byte>) returns (ok: bool)
      modifies this`written
      ensures ok ==> written == old(written) + data
      ensures reliable ==> ok
    {
      ok :| reliable ==> ok;
      if ok {
        written := written + data;
      }
    }

    /** Reads exactly so many bytes, or fails at the end of the stream. */
    method ReadExact(n: nat) returns (r: Option<seq<byte>>)
      modifies this`incoming
      ensures r.Some? <==> n <= |old(incoming)|
      ensures r.Some? ==> |r.value| == n && old(incoming) == r.value + incoming
    {
      if n > |incoming| {
        incoming := [];
        return None;
      }
      var data := incoming[..n];
      incoming := incoming[n..];
      r := Some(data);
    }
  }
}
