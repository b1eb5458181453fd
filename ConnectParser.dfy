/**
 * Validation of the CONNECT request and extraction of the target `host:port`
 * (`process_http_connect`). The HTTP parser's output and the name resolver
 * are inputs: `RequestHead` is what the parser read from the request line,
 * `lookup` is what resolving a name yields.
 */
module ConnectParser {
  import opened Base
  import opened Numerals

  /** Method token (`verb`), minor HTTP version (0 for HTTP/1.0, 1 for HTTP/1.1) and request target. */
  datatype RequestHead = RequestHead(verb: string, version: nat, path: string)

  /** A resolved socket address. Only IPv4 addresses are ever printed. */
  datatype SocketAddr =
    | V4(a: byte, b: byte, c: byte, d: byte, port: u16)
    | V6(segments: seq<u16>, port: u16)

  /** The outcome of resolving the request target. */
  datatype Resolution = Resolved(addrs: seq<SocketAddr>) | ResolveFailed

  /** Where the SOCKS5 tunnel is asked to go. */
  datatype Target = Target(host: string, port: u16)

  datatype ConnectError =
    | NotConnect    // wrong method or version
    | ResolveError  // the resolver returned an error
    | MissingPort   // no `:` in the authority (the source panics on the index)
    | BadPort       // the piece after the first `:` is not a u16 (the source panics on `unwrap`)

  // ---------------------------------------------------------------- method check

  function UpperChar(c: char): char {
    if 'a' <= c <= 'z' then (c as int - 32) as char else c
  }

  /** Upper-casing, character by character: no lower-case ASCII letter is left. */
  function ToUpper(s: string): (u: string)
    ensures |u| == |s|
    ensures forall i :: 0 <= i < |u| ==> !('a' <= u[i] <= 'z')
  {
    seq(|s|, i requires 0 <= i < |s| => UpperChar(s[i]))
  }

  /** The test at the head of `process_http_connect`. */
  predicate MethodAccepted(req: RequestHead): (ok: bool)
    ensures ok ==> |req.verb| == 7 && req.version <= 1
  {
    ToUpper(req.verb) == "CONNECT" && (req.version == 1 || req.version == 0)
  }

  /** The method matches `CONNECT` ignoring case, and the version is HTTP/1.0 or HTTP/1.1. */
  lemma MethodAcceptedIff(req: RequestHead)
    ensures MethodAccepted(req) <==>
      && (req.version == 0 || req.version == 1)
      && |req.verb| == 7
      && forall i :: 0 <= i < 7 ==> req.verb[i] == "CONNECT"[i] || req.verb[i] == "connect"[i]
  {
    var m := req.verb;
    if |m| == 7 && forall i :: 0 <= i < 7 ==> m[i] == "CONNECT"[i] || m[i] == "connect"[i] {
      forall i | 0 <= i < 7
        ensures ToUpper(m)[i] == "CONNECT"[i]
      {
      }
      assert ToUpper(m) == "CONNECT";
    }
    if ToUpper(m) == "CONNECT" {
      forall i | 0 <= i < 7
        ensures m[i] == "CONNECT"[i] || m[i] == "connect"[i]
      {
        assert UpperChar(m[i]) == "CONNECT"[i];
      }
    }
  }

  // ---------------------------------------------------------------- printing addresses

  /** Dotted-quad form of an IPv4 address. */
  function Ipv4String(addr: SocketAddr): (s: string)
    requires addr.V4?
    ensures ':' !in s
  {
    Decimal(addr.a) + "." + Decimal(addr.b) + "." + Decimal(addr.c) + "." + Decimal(addr.d)
  }

  /** `to_string` of an IPv4 socket address: `a.b.c.d:port`. */
  function SocketAddrString(addr: SocketAddr): (s: string)
    requires addr.V4?
    ensures multiset(s)[':'] == 1
  {
    Ipv4String(addr) + ":" + Decimal(addr.port)
  }

  // ---------------------------------------------------------------- choosing the authority

  predicate HasIpv4(addrs: seq<SocketAddr>) {
    exists i :: 0 <= i < |addrs| && addrs[i].V4?
  }

  /** `addrs[i]` is the first IPv4 address of the list. */
  predicate IsFirstIpv4(addrs: seq<SocketAddr>, i: int) {
    0 <= i < |addrs| && addrs[i].V4? && forall j :: 0 <= j < i ==> !addrs[j].V4?
  }

  /** The string that is split into host and port after resolution. */
  function PreferredAuthority(path: string, addrs: seq<SocketAddr>): (authority: string)
    ensures authority == path || exists i :: 0 <= i < |addrs| && addrs[i].V4? && authority == SocketAddrString(addrs[i])
  {
    if addrs == [] then path
    else if addrs[0].V4? then SocketAddrString(addrs[0])
    else PreferredAuthority(path, addrs[1..])
  }

  /** Without an IPv4 resolution the request target is kept unchanged. */
  lemma {:induction false} PreferredAuthorityWithoutIpv4(path: string, addrs: seq<SocketAddr>)
    requires !HasIpv4(addrs)
    ensures PreferredAuthority(path, addrs) == path
  {
    if addrs != [] {
      assert !addrs[0].V4?;
      assert !HasIpv4(addrs[1..]) by {
        forall i | 0 <= i < |addrs[1..]| ensures !addrs[1..][i].V4? {
          assert addrs[1..][i] == addrs[i + 1];
        }
      }
      PreferredAuthorityWithoutIpv4(path, addrs[1..]);
    }
  }

  /** With an IPv4 resolution, the first one wins. */
  lemma {:induction false} PreferredAuthorityAtFirstIpv4(path: string, addrs: seq<SocketAddr>, i: int)
    requires IsFirstIpv4(addrs, i)
    ensures PreferredAuthority(path, addrs) == SocketAddrString(addrs[i])
  {
    if i > 0 {
      assert !addrs[0].V4?;
      assert IsFirstIpv4(addrs[1..], i - 1);
      PreferredAuthorityAtFirstIpv4(path, addrs[1..], i - 1);
    }
  }

  /** The first IPv4 resolution wins; without one the request target is kept unchanged. */
  lemma PreferredAuthorityIsFirstIpv4(path: string, addrs: seq<SocketAddr>)
    ensures !HasIpv4(addrs) ==> PreferredAuthority(path, addrs) == path
    ensures forall i :: IsFirstIpv4(addrs, i) ==> PreferredAuthority(path, addrs) == SocketAddrString(addrs[i])
  {
    if !HasIpv4(addrs) {
      PreferredAuthorityWithoutIpv4(path, addrs);
    }
    forall i | IsFirstIpv4(addrs, i)
      ensures PreferredAuthority(path, addrs) == SocketAddrString(addrs[i])
    {
      PreferredAuthorityAtFirstIpv4(path, addrs, i);
    }
  }

  /** The `for` loop over the resolved addresses: keep the path unless an IPv4 address turns up. */
  method ChooseAuthority(path: string, addrs: seq<SocketAddr>) returns (hostAddr: string)
    ensures hostAddr == PreferredAuthority(path, addrs)
  {
    hostAddr := path;
    var i := 0;
    while i < |addrs|
      invariant 0 <= i <= |addrs|
      invariant hostAddr == path
      invariant PreferredAuthority(path, addrs[i..]) == PreferredAuthority(path, addrs)
    {
      if addrs[i].V4? {
        hostAddr := SocketAddrString(addrs[i]);
        return;
      }
      assert addrs[i..][1..] == addrs[i + 1..];
      i := i + 1;
    }
    assert addrs[i..] == [];
  }

  // ---------------------------------------------------------------- splitting host and port

  /** The inverse of `Split`: the pieces glued back with the separator between them. */
  function Join(pieces: seq<string>, sep: char): string
    requires |pieces| > 0
  {
    if |pieces| == 1 then pieces[0] else pieces[0] + [sep] + Join(pieces[1..], sep)
  }

  /** `str::split(sep)`: the maximal separator-free pieces, an empty piece where two separators meet. */
  function Split(s: string, sep: char): (pieces: seq<string>)
    ensures |pieces| > 0
    ensures forall k :: 0 <= k < |pieces| ==> sep !in pieces[k]
    ensures Join(pieces, sep) == s
  {
    if s == [] then [[]]
    else
      var rest := Split(s[1..], sep);
      if s[0] == sep then
        assert ([[]] + rest)[1..] == rest;
        [[]] + rest
      else
        var pieces := [[s[0]] + rest[0]] + rest[1..];
        assert pieces[1..] == rest[1..];
        assert s == [s[0]] + s[1..];
        pieces
  }

  /** A separator-free string is one piece. */
  lemma {:induction false} SplitWithoutSeparator(s: string, sep: char)
    requires sep !in s
    ensures Split(s, sep) == [s]
  {
    if s != [] {
      SplitWithoutSeparator(s[1..], sep);
    }
  }

  /** Splitting stops at the first separator: what follows is split on its own. */
  lemma {:induction false} SplitAtFirstSeparator(head: string, sep: char, tail: string)
    requires sep !in head
    ensures Split(head + [sep] + tail, sep) == [head] + Split(tail, sep)
  {
    if head == [] {
      assert head + [sep] + tail == [sep] + tail;
      assert ([sep] + tail)[1..] == tail;
    } else {
      var s := head + [sep] + tail;
      assert s[0] == head[0] && s[0] != sep;
      assert s[1..] == head[1..] + [sep] + tail;
      SplitAtFirstSeparator(head[1..], sep, tail);
      var rest := Split(s[1..], sep);
      assert rest == [head[1..]] + Split(tail, sep);
      assert rest[0] == head[1..] && rest[1..] == Split(tail, sep);
      assert [head[0]] + head[1..] == head;
      assert Split(s, sep) == [[s[0]] + rest[0]] + rest[1..];
    }
  }

  /** The `split(':')`, `slices[0]`, `slices[1].parse()` step. */
  function ExtractTarget(authority: string): (r: Result<Target, ConnectError>)
    ensures r.Ok? ==> ':' !in r.value.host && r.value.host <= authority
    ensures r.Err? ==> r.error == MissingPort || r.error == BadPort
  {
    var pieces := Split(authority, ':');
    if |pieces| < 2 then Err(MissingPort)
    else match ParseU16(pieces[1])
      case None => Err(BadPort)
      case Some(p) => Ok(Target(pieces[0], p))
  }

  /** No `:` at all: there is no port piece. */
  lemma ExtractWithoutColon(authority: string)
    requires ':' !in authority
    ensures ExtractTarget(authority) == Err(MissingPort)
  {
    SplitWithoutSeparator(authority, ':');
  }

  /**
   * With a `:`: the host is everything before the FIRST colon, and the port
   * is read from the text between that colon and the next one (or the end).
   */
  lemma ExtractAtFirstColon(host: string, rest: string)
    requires ':' !in host
    ensures ExtractTarget(host + ":" + rest) ==
      match ParseU16(Split(rest, ':')[0])
      case None => Err(BadPort)
      case Some(p) => Ok(Target(host, p))
  {
    SplitAtFirstSeparator(host, ':', rest);
  }

  /** A successful extraction always cut the authority at its first colon. */
  lemma ExtractCutsAtFirstColon(authority: string)
    requires ExtractTarget(authority).Ok?
    ensures var host := ExtractTarget(authority).value.host;
      && ':' !in host
      && |host| < |authority|
      && authority[..|host|] == host
      && authority[|host|] == ':'
  {
    var pieces := Split(authority, ':');
    assert Join(pieces, ':') == pieces[0] + [':'] + Join(pieces[1..], ':');
  }

  /** Round trip: a colon-free host and a printed port come back as they were. */
  lemma ExtractRoundTrip(host: string, p: u16)
    requires ':' !in host
    ensures ExtractTarget(host + ":" + Decimal(p)) == Ok(Target(host, p))
  {
    ExtractAtFirstColon(host, Decimal(p));
    SplitWithoutSeparator(Decimal(p), ':');
    ParseU16Decimal(p);
  }

  /** A printed IPv4 socket address splits into its dotted quad and its port. */
  lemma ExtractSocketAddr(addr: SocketAddr)
    requires addr.V4?
    ensures ExtractTarget(SocketAddrString(addr)) == Ok(Target(Ipv4String(addr), addr.port))
  {
    ExtractRoundTrip(Ipv4String(addr), addr.port);
  }

  /** An IPv6 literal that stays unresolved to IPv4 is cut at its first colon and fails. */
  lemma ExtractIpv6Literal()
    ensures ExtractTarget("[::1]:443") == Err(BadPort)
  {
    assert "[::1]:443" == "[" + ":" + ":1]:443";
    ExtractAtFirstColon("[", ":1]:443");
    assert ":1]:443" == [] + [':'] + "1]:443";
    SplitAtFirstSeparator([], ':', "1]:443");
  }

  // ---------------------------------------------------------------- the whole step

  /** What `process_http_connect` returns for a parsed request and a resolver. */
  function ConnectResult(req: RequestHead, lookup: string -> Resolution): (r: Result<Target, ConnectError>)
    ensures r.Ok? ==> MethodAccepted(req) && lookup(req.path).Resolved?
    ensures !MethodAccepted(req) ==> r == Err(NotConnect)
  {
    if !MethodAccepted(req) then Err(NotConnect)
    else match lookup(req.path)
      case ResolveFailed => Err(ResolveError)
      case Resolved(addrs) => ExtractTarget(PreferredAuthority(req.path, addrs))
  }

  /**
   * `process_http_connect` after the HTTP parser, as the source runs it: the
   * `for` loop is `ChooseAuthority`, and the result is the one `ConnectResult`
   * specifies. What the method adds over that function is the record of the
   * resolver call. `lookups` lists the names
   * handed to the resolver: exactly the request target when the request is
   * accepted, and none when it is rejected.
   */
  method ProcessHttpConnect(req: RequestHead, lookup: string -> Resolution)
    returns (r: Result<Target, ConnectError>, lookups: seq<string>)
    ensures lookups == if MethodAccepted(req) then [req.path] else []
    ensures !MethodAccepted(req) ==> r == Err(NotConnect)
    ensures r == ConnectResult(req, lookup)
  {
    if ToUpper(req.verb) == "CONNECT" && (req.version == 1 || req.version == 0) {
      lookups := [req.path];
      match lookup(req.path) {
        case ResolveFailed =>
          r := Err(ResolveError);
        case Resolved(addrs) =>
          var hostAddr := ChooseAuthority(req.path, addrs);
          r := ExtractTarget(hostAddr);
      }
    } else {
      lookups := [];
      r := Err(NotConnect);
    }
  }

  /** An accepted request whose target resolves to some IPv4 address is sent to the first one. */
  lemma ConnectPrefersIpv4(req: RequestHead, lookup: string -> Resolution, i: nat)
    requires MethodAccepted(req)
    requires lookup(req.path).Resolved?
    requires IsFirstIpv4(lookup(req.path).addrs, i)
    ensures ConnectResult(req, lookup) ==
      Ok(Target(Ipv4String(lookup(req.path).addrs[i]), lookup(req.path).addrs[i].port))
  {
    var addrs := lookup(req.path).addrs;
    PreferredAuthorityIsFirstIpv4(req.path, addrs);
    ExtractSocketAddr(addrs[i]);
  }

  /** Without an IPv4 resolution the request target itself is split, so `host:port` gives back `(host, port)`. */
  lemma ConnectKeepsPath(req: RequestHead, lookup: string -> Resolution, host: string, p: u16)
    requires MethodAccepted(req)
    requires lookup(req.path).Resolved? && !HasIpv4(lookup(req.path).addrs)
    requires req.path == host + ":" + Decimal(p) && ':' !in host
    ensures ConnectResult(req, lookup) == Ok(Target(host, p))
  {
    PreferredAuthorityIsFirstIpv4(req.path, lookup(req.path).addrs);
    ExtractRoundTrip(host, p);
  }
}
