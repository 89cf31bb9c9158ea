/**
 * The SOCKS5 client (internal/upstream/upstream.go:460-587) against sections 3 to 6 of
 * RFC 1928 and section 2 of RFC 1929. Parsing the target text is done before: a target is
 * its host form and the number its port text stands for.
 */
module Socks5 {
  import opened Basics

  type Bytes = seq<byte>

  datatype Host = Ip4(addr: Bytes) | Ip6(addr: Bytes) | Name(addr: Bytes)

  datatype Target = Unsplit | Split(host: Host, port: Option<int>)

  datatype Error = WriteFailed | ReadFailed | BadVersion | MethodRejected | CredentialsTooLong | AuthFailed
                 | BadTarget | BadPort | HostTooLong | ConnectFailed(code: byte) | BadAddressType

  /** What parsing an address guarantees about its length. */
  predicate ValidHost(h: Host) { (h.Ip4? ==> |h.addr| == 4) && (h.Ip6? ==> |h.addr| == 16) }

  // ----- what the client sends -----

  predicate AuthRequired(user: Bytes, pass: Bytes) { user != [] || pass != [] }

  function Greeting(user: Bytes, pass: Bytes): Bytes
  {
    if AuthRequired(user, pass) then [5, 2, 0, 2] else [5, 1, 0]
  }

  predicate ShortCredentials(user: Bytes, pass: Bytes) { |user| <= 255 && |pass| <= 255 }

  function AuthRequest(user: Bytes, pass: Bytes): Bytes
    requires ShortCredentials(user, pass)
  {
    [1, |user|] + user + [|pass|] + pass
  }

  function ConnectRequest(t: Target): Result<Bytes, Error>
  {
    if t.Unsplit? then Err(BadTarget)
    else if t.port.None? || t.port.value < 1 || t.port.value > 65535 then Err(BadPort)
    else if t.host.Name? && |t.host.addr| > 255 then Err(HostTooLong)
    else
      var address := match t.host
                     case Ip4(a) => [1] + a
                     case Ip6(a) => [4] + a
                     case Name(a) => [3, |a|] + a;
      Ok([5, 1, 0] + address + [t.port.value / 256, t.port.value % 256])
  }

  /** The whole client side once the server has picked a method. */
  function ClientBytes(user: Bytes, pass: Bytes, t: Target, chosen: byte): Bytes
    requires ConnectRequest(t).Ok? && (chosen == 2 ==> ShortCredentials(user, pass))
  {
    Greeting(user, pass) + (if chosen == 2 then AuthRequest(user, pass) else []) + ConnectRequest(t).value
  }

  // ----- a decoder written from the RFCs -----

  /** A counted field: one length octet and that many octets. */
  function Counted(b: Bytes): Option<(Bytes, Bytes)>
  {
    if b == [] || |b| < 1 + b[0] as int then None else Some((b[1..1 + b[0] as int], b[1 + b[0] as int..]))
  }

  function Fixed(b: Bytes, n: nat): Option<(Bytes, Bytes)>
  {
    if |b| < n then None else Some((b[..n], b[n..]))
  }

  /** Section 3 of RFC 1928: VER, NMETHODS, METHODS. */
  function DecodeMethods(b: Bytes): Option<(Bytes, Bytes)>
  {
    if b == [] || b[0] != 5 then None else Counted(b[1..])
  }

  /** Section 2 of RFC 1929: VER, ULEN, UNAME, PLEN, PASSWD. */
  function DecodeAuth(b: Bytes): Option<(Bytes, Bytes, Bytes)>
  {
    if b == [] || b[0] != 1 then None
    else match Counted(b[1..])
      case None => None
      case Some(u) => match Counted(u.1)
        case None => None
        case Some(p) => Some((u.0, p.0, p.1))
  }

  /** Section 5 of RFC 1928: ATYP and address. */
  function DecodeAddress(b: Bytes): Option<(Host, Bytes)>
  {
    if b == [] then None
    else if b[0] == 1 then (match Fixed(b[1..], 4) case None => None case Some(a) => Some((Ip4(a.0), a.1)))
    else if b[0] == 4 then (match Fixed(b[1..], 16) case None => None case Some(a) => Some((Ip6(a.0), a.1)))
    else if b[0] == 3 then (match Counted(b[1..]) case None => None case Some(a) => Some((Name(a.0), a.1)))
    else None
  }

  /** Section 4 of RFC 1928: VER, CMD = CONNECT, RSV, address, port in network order. */
  function DecodeConnect(b: Bytes): Option<(Host, int, Bytes)>
  {
    if |b| < 3 || b[..3] != [5, 1, 0] then None
    else match DecodeAddress(b[3..])
      case None => None
      case Some(a) => if |a.1| < 2 then None else Some((a.0, a.1[0] as int * 256 + a.1[1] as int, a.1[2..]))
  }

  datatype Session = Session(methods: Bytes, credentials: Option<(Bytes, Bytes)>, host: Host, port: int, rest: Bytes)

  /** The server's reading of the client side, given the method it picked. */
  function DecodeClient(b: Bytes, chosen: byte): Option<Session>
  {
    match DecodeMethods(b)
    case None => None
    case Some(m) =>
      if chosen == 2 then
        match DecodeAuth(m.1)
        case None => None
        case Some(a) => match DecodeConnect(a.2)
          case None => None
          case Some(c) => Some(Session(m.0, Some((a.0, a.1)), c.0, c.1, c.2))
      else
        match DecodeConnect(m.1)
        case None => None
        case Some(c) => Some(Session(m.0, None, c.0, c.1, c.2))
  }

  lemma CountedRoundTrip(field: Bytes, rest: Bytes)
    requires |field| <= 255
    ensures Counted([|field|] + field + rest) == Some((field, rest))
  {
    var b := [|field|] + field + rest;
    assert b[1..1 + |field|] == field && b[1 + |field|..] == rest;
  }

  lemma AuthRoundTrip(user: Bytes, pass: Bytes, rest: Bytes)
    requires ShortCredentials(user, pass)
    ensures DecodeAuth(AuthRequest(user, pass) + rest) == Some((user, pass, rest))
  {
    hide Counted;
    var b := AuthRequest(user, pass) + rest;
    var afterUser := [|pass|] + pass + rest;
    assert b[1..] == [|user|] + user + afterUser;
    CountedRoundTrip(user, afterUser);
    CountedRoundTrip(pass, rest);
  }

  lemma AddressRoundTrip(h: Host, rest: Bytes)
    requires ValidHost(h) && (h.Name? ==> |h.addr| <= 255)
    ensures
      var address := match h case Ip4(a) => [1] + a case Ip6(a) => [4] + a case Name(a) => [3, |a|] + a;
      DecodeAddress(address + rest) == Some((h, rest))
  {
    match h
    case Ip4(a) =>
      assert ([1] + a + rest)[1..] == a + rest && (a + rest)[..4] == a && (a + rest)[4..] == rest;
    case Ip6(a) =>
      assert ([4] + a + rest)[1..] == a + rest && (a + rest)[..16] == a && (a + rest)[16..] == rest;
    case Name(a) =>
      assert ([3, |a|] + a + rest)[1..] == [|a|] + a + rest;
      CountedRoundTrip(a, rest);
  }

  lemma ConnectRoundTrip(t: Target, rest: Bytes)
    requires ConnectRequest(t).Ok? && ValidHost(t.host)
    ensures DecodeConnect(ConnectRequest(t).value + rest) == Some((t.host, t.port.value, rest))
  {
    hide DecodeAddress;
    var address := match t.host case Ip4(a) => [1] + a case Ip6(a) => [4] + a case Name(a) => [3, |a|] + a;
    var port: Bytes := [t.port.value / 256, t.port.value % 256];
    var b := ConnectRequest(t).value + rest;
    assert b[..3] == [5, 1, 0];
    assert b[3..] == address + (port + rest);
    AddressRoundTrip(t.host, port + rest);
    assert (port + rest)[2..] == rest;
  }

  /** The decoder recovers exactly the methods, credentials, address and port, for every address type and length. */
  lemma ServerRecoversClient(user: Bytes, pass: Bytes, t: Target, chosen: byte, rest: Bytes)
    requires ConnectRequest(t).Ok? && ValidHost(t.host) && (chosen == 2 ==> ShortCredentials(user, pass))
    ensures DecodeClient(ClientBytes(user, pass, t, chosen) + rest, chosen)
         == Some(Session(if AuthRequired(user, pass) then [0, 2] else [0],
                         if chosen == 2 then Some((user, pass)) else None, t.host, t.port.value, rest))
  {
    hide ConnectRequest, DecodeConnect, DecodeAuth, DecodeMethods, AuthRequest, Greeting;
    var request := ConnectRequest(t).value;
    var auth := if chosen == 2 then AuthRequest(user, pass) else [];
    assert ClientBytes(user, pass, t, chosen) + rest == Greeting(user, pass) + (auth + (request + rest));
    GreetingRoundTrip(user, pass, auth + (request + rest));
    ConnectRoundTrip(t, rest);
    if chosen == 2 { AuthRoundTrip(user, pass, request + rest); }
    else { assert auth + (request + rest) == request + rest; }
  }

  lemma GreetingRoundTrip(user: Bytes, pass: Bytes, rest: Bytes)
    ensures DecodeMethods(Greeting(user, pass) + rest) == Some((if AuthRequired(user, pass) then [0, 2] else [0], rest))
  {
    var methods: Bytes := if AuthRequired(user, pass) then [0, 2] else [0];
    assert (Greeting(user, pass) + rest)[1..] == [|methods|] + methods + rest;
    CountedRoundTrip(methods, rest);
  }

  // ----- what an accepting server sends -----

  /** Section 6 of RFC 1928: a reply with REP = succeeded, exactly as long as its address says. */
  predicate AcceptReply(r: Bytes)
  {
    && |r| >= 5 && r[0] == 5 && r[1] == 0
    && (r[3] == 1 || r[3] == 3 || r[3] == 4)
    && |r| == if r[3] == 1 then 10 else if r[3] == 4 then 22 else 7 + r[4] as int
  }

  function MethodAndAuth(chosen: byte): Bytes { if chosen == 2 then [5, 2, 1, 0] else [5, chosen] }

  /** The stream begins by picking a method the client handles. */
  predicate Picked(chosen: byte, s: Bytes) { (chosen == 0 || chosen == 2) && MethodAndAuth(chosen) <= s }

  /** A complete accepting server side for the method it picked. */
  predicate Accepting(s: Bytes, chosen: byte)
  {
    Picked(chosen, s) && AcceptReply(s[|MethodAndAuth(chosen)|..])
  }

  /** The length a reply's address type and length octets announce. */
  function ReplySize(s: Bytes): nat
    requires |s| >= 5
  {
    if s[3] == 1 then 10 else if s[3] == 4 then 22 else 7 + s[4] as int
  }

  lemma AcceptReplyAt(s: Bytes, n: nat)
    requires n <= |s|
    ensures AcceptReply(s[..n]) <==>
      |s| >= 5 && n == ReplySize(s) && s[0] == 5 && s[1] == 0 && (s[3] == 1 || s[3] == 3 || s[3] == 4)
  {
    if n >= 5 { assert s[..n][0] == s[0] && s[..n][1] == s[1] && s[..n][3] == s[3] && s[..n][4] == s[4]; }
  }

  lemma AcceptReplyUnique(s: Bytes, n: nat, k: nat)
    requires n <= |s| && k <= |s| && AcceptReply(s[..n]) && AcceptReply(s[..k])
    ensures n == k
  {
    assert s[..n][3] == s[3] == s[..k][3] && s[..n][4] == s[4] == s[..k][4];
  }

  /** The first `n` bytes are a complete accepting server side. */
  ghost predicate AcceptingUpTo(s: Bytes, n: int, chosen: byte) { 0 <= n <= |s| && Accepting(s[..n], chosen) }

  /** A stream has at most one accepting beginning, so what the client may consume is determined. */
  lemma AcceptingUnique(s: Bytes, n: int, a: byte, k: int, b: byte)
    requires AcceptingUpTo(s, n, a) && AcceptingUpTo(s, k, b)
    ensures n == k && a == b
  {
    hide AcceptReply, AcceptingUpTo;
    AcceptingSplits(s, n, a);
    AcceptingSplits(s, k, b);
    PickedUnique(s, a, b);
    var h := |MethodAndAuth(a)|;
    AcceptReplyUnique(s[h..], n - h, k - h);
  }

  lemma AuthAccepted(s: Bytes)
    requires |s| >= 2 && s[0] == 5 && s[1] == 2 && [1, 0] <= s[2..]
    ensures MethodAndAuth(2) <= s && s[2..][2..] == s[4..]
  {
    var tail := s[2..];
    assert tail[0] == 1 && tail[1] == 0;
    assert s[2] == tail[0] && s[3] == tail[1];
  }

  lemma SliceShift(s: Bytes, h: nat, k: nat)
    requires h + k <= |s|
    ensures s[..h + k][h..] == s[h..][..k] && s[h..][k..] == s[h + k..]
  {
  }

  lemma AcceptingSplits(s: Bytes, n: int, m: byte)
    requires AcceptingUpTo(s, n, m)
    ensures Picked(m, s) && |MethodAndAuth(m)| <= n <= |s|
    ensures AcceptReply(s[|MethodAndAuth(m)|..][..n - |MethodAndAuth(m)|])
  {
    hide AcceptReply;
    assert MethodAndAuth(m) <= s[..n];
    SliceShift(s, |MethodAndAuth(m)|, n - |MethodAndAuth(m)|);
  }

  lemma AcceptingJoins(s: Bytes, m: byte, k: nat)
    requires Picked(m, s) && |MethodAndAuth(m)| + k <= |s| && AcceptReply(s[|MethodAndAuth(m)|..][..k])
    ensures AcceptingUpTo(s, |MethodAndAuth(m)| + k, m)
    ensures s[|MethodAndAuth(m)|..][k..] == s[|MethodAndAuth(m)| + k..]
  {
    hide AcceptReply;
    SliceShift(s, |MethodAndAuth(m)|, k);
  }

  lemma PickedUnique(s: Bytes, a: byte, b: byte)
    requires Picked(a, s) && Picked(b, s)
    ensures a == b
  {
    assert s[1] == MethodAndAuth(a)[1] && s[1] == MethodAndAuth(b)[1];
  }

  // ----- the client -----

  class Conn {
    /** What the server will send, and what the client has sent. */
    var input: Bytes
    var output: Bytes
    /** How many more writes succeed. */
    var writes: nat

    constructor (input: Bytes, writes: nat)
      ensures this.input == input && this.writes == writes && output == []
    {
      this.input, this.writes, this.output := input, writes, [];
    }

    method Write(data: Bytes) returns (ok: bool)
      modifies this`output, this`writes
      ensures ok <==> old(writes) > 0
      ensures ok ==> output == old(output) + data && writes == old(writes) - 1
      ensures !ok ==> output == old(output) && writes == old(writes)
    {
      if writes == 0 { return false; }
      output, writes, ok := output + data, writes - 1, true;
    }

    /** `io.ReadFull` */
    method ReadFull(n: nat) returns (data: Option<Bytes>)
      modifies this`input
      ensures data.Some? <==> |old(input)| >= n
      ensures data.Some? ==> data.value == old(input)[..n] && input == old(input)[n..]
    {
      if |input| < n {
        input := [];
        return None;
      }
      data, input := Some(input[..n]), input[n..];
    }

    method ReadReply() returns (err: Option<Error>)
      modifies this`input
      ensures err == None ==> exists n :: 0 <= n <= |old(input)| && AcceptReply(old(input)[..n]) && input == old(input)[n..]
      ensures (exists n :: 0 <= n <= |old(input)| && AcceptReply(old(input)[..n])) ==> err == None
    {
      hide AcceptReply;
      ghost var s := input;
      forall n | 0 <= n <= |s|
        ensures AcceptReply(s[..n]) ==>
          |s| >= 5 && n == ReplySize(s) && s[0] == 5 && s[1] == 0 && (s[3] == 1 || s[3] == 3 || s[3] == 4)
      {
        AcceptReplyAt(s, n);
      }
      var header := ReadFull(4);
      if header.None? { return Some(ReadFailed); }
      var h := header.value;
      if h[0] != 5 { return Some(BadVersion); }
      if h[1] != 0 { return Some(ConnectFailed(h[1])); }
      var discard: nat := 0;
      ghost var taken: nat := 4;
      if h[3] == 1 {
        discard := 4;
      } else if h[3] == 3 {
        var length := ReadFull(1);
        if length.None? { return Some(ReadFailed); }
        discard, taken := length.value[0], 5;
        assert length.value[0] == s[4];
      } else if h[3] == 4 {
        discard := 16;
      } else {
        return Some(BadAddressType);
      }
      assert |s| >= 5 ==> ReplySize(s) == taken + discard + 2;
      if discard > 0 {
        var address := ReadFull(discard);
        if address.None? { return Some(ReadFailed); }
      }
      assert input == s[taken + discard..];
      var port := ReadFull(2);
      if port.None? { return Some(ReadFailed); }
      assert input == s[ReplySize(s)..];
      AcceptReplyAt(s, ReplySize(s));
      err := None;
    }

    method Authenticate(user: Bytes, pass: Bytes) returns (err: Option<Error>)
      modifies this
      ensures err == Some(CredentialsTooLong) <==> !ShortCredentials(user, pass)
      ensures err == None ==>
        && ShortCredentials(user, pass) && old(writes) > 0 && writes == old(writes) - 1
        && output == old(output) + AuthRequest(user, pass)
        && [1, 0] <= old(input) && input == old(input)[2..]
      ensures ShortCredentials(user, pass) && old(writes) > 0 && [1, 0] <= old(input) ==> err == None
    {
      if |user| > 255 || |pass| > 255 { return Some(CredentialsTooLong); }
      var ok := Write(AuthRequest(user, pass));
      if !ok { return Some(WriteFailed); }
      var resp := ReadFull(2);
      if resp.None? { return Some(ReadFailed); }
      if resp.value[0] != 1 || resp.value[1] != 0 { return Some(AuthFailed); }
      err := None;
    }

    /** The greeting and, when the server picks it, the password exchange. */
    method Negotiate(user: Bytes, pass: Bytes) returns (err: Option<Error>, chosen: byte)
      modifies this
      ensures err == None ==>
        && Picked(chosen, old(input)) && (chosen == 2 ==> ShortCredentials(user, pass))
        && input == old(input)[|MethodAndAuth(chosen)|..]
        && output == old(output) + Greeting(user, pass) + (if chosen == 2 then AuthRequest(user, pass) else [])
        && writes >= old(writes) - 2
      ensures forall m :: Picked(m, old(input)) && old(writes) >= 2 && (m == 2 ==> ShortCredentials(user, pass))
                ==> err == None && chosen == m
    {
      ghost var s := input;
      chosen := 0;
      var ok := Write(Greeting(user, pass));
      if !ok { return Some(WriteFailed), 0; }
      var greeting := ReadFull(2);
      if greeting.None? { return Some(ReadFailed), 0; }
      var g := greeting.value;
      assert g[0] == s[0] && g[1] == s[1];
      if g[0] != 5 { return Some(BadVersion), 0; }
      chosen := g[1];
      if chosen == 2 {
        if MethodAndAuth(2) <= s { assert s[2..][0] == s[2] && s[2..][1] == s[3]; }
        err := Authenticate(user, pass);
        if err == None { AuthAccepted(s); }
      } else {
        err := if chosen == 0 then None else Some(MethodRejected);
      }
    }

    /**
     * Success means the server's bytes began with an accepting exchange for a method the
     * client handles, exactly those bytes were consumed, and exactly the client side was sent.
     * It happens whenever such an exchange is there, the request can be built and writes hold.
     */
    method Handshake(user: Bytes, pass: Bytes, t: Target) returns (err: Option<Error>, ghost chosen: byte)
      modifies this
      ensures err == None ==>
        && ConnectRequest(t).Ok? && (chosen == 2 ==> ShortCredentials(user, pass))
        && output == old(output) + ClientBytes(user, pass, t, chosen)
        && exists n :: AcceptingUpTo(old(input), n, chosen) && input == old(input)[n..]
      ensures forall n, m :: AcceptingUpTo(old(input), n, m) && ConnectRequest(t).Ok? && old(writes) >= 3
                             && (m == 2 ==> ShortCredentials(user, pass))
                ==> err == None && chosen == m && input == old(input)[n..]
    {
      hide ConnectRequest, Greeting, AuthRequest, ShortCredentials, AcceptReply, AcceptingUpTo, MethodAndAuth, Picked, ClientBytes;
      ghost var s := input;
      var picked;
      err, picked := Negotiate(user, pass);
      chosen := picked;
      forall n, m | AcceptingUpTo(s, n, m) && old(writes) >= 3 && (m == 2 ==> ShortCredentials(user, pass))
        ensures err == None
      {
        AcceptingSplits(s, n, m);
        assert Picked(m, s);
      }
      if err.Some? { return; }
      ghost var head := |MethodAndAuth(chosen)|;
      AcceptingRest(s, chosen);
      var request := ConnectRequest(t);
      if request.Err? { return Some(request.error), chosen; }
      assert ConnectRequest(t).Ok?;
      var ok := Write(request.value);
      if !ok { return Some(WriteFailed), chosen; }
      ClientSent(old(output), user, pass, t, chosen);
      err := ReadReply();
      if err == None {
        ghost var k :| 0 <= k <= |s[head..]| && AcceptReply(s[head..][..k]) && input == s[head..][k..];
        AcceptingJoins(s, chosen, k);
        AcceptedOnce(s, head + k, chosen);
      }
    }
  }

  /** Behind the picked method, an accepting stream is an accepting reply. */
  lemma AcceptingRest(s: Bytes, chosen: byte)
    requires Picked(chosen, s)
    ensures |MethodAndAuth(chosen)| <= |s|
    ensures forall n, m :: AcceptingUpTo(s, n, m) ==>
      && m == chosen && |MethodAndAuth(chosen)| <= n <= |s|
      && AcceptReply(s[|MethodAndAuth(chosen)|..][..n - |MethodAndAuth(chosen)|])
  {
    hide AcceptingUpTo, AcceptReply;
    forall n, m | AcceptingUpTo(s, n, m)
      ensures m == chosen && |MethodAndAuth(chosen)| <= n <= |s|
      ensures AcceptReply(s[|MethodAndAuth(chosen)|..][..n - |MethodAndAuth(chosen)|])
    {
      AcceptingSplits(s, n, m);
      PickedUnique(s, m, chosen);
    }
  }

  lemma AcceptedOnce(s: Bytes, k: nat, chosen: byte)
    requires AcceptingUpTo(s, k, chosen)
    ensures forall n, m :: AcceptingUpTo(s, n, m) ==> n == k && m == chosen
  {
    hide AcceptingUpTo;
    forall n, m | AcceptingUpTo(s, n, m) ensures n == k && m == chosen { AcceptingUnique(s, n, m, k, chosen); }
  }

  lemma ClientSent(sent: Bytes, user: Bytes, pass: Bytes, t: Target, chosen: byte)
    requires ConnectRequest(t).Ok? && (chosen == 2 ==> ShortCredentials(user, pass))
    ensures sent + Greeting(user, pass) + (if chosen == 2 then AuthRequest(user, pass) else []) + ConnectRequest(t).value
         == sent + ClientBytes(user, pass, t, chosen)
  {
    hide ConnectRequest, Greeting, AuthRequest;
  }

  // ----- what cannot be asked for -----

  /** A request can be made of exactly the targets that split, with a port from 1 to 65535 and a name of at most 255 bytes. */
  lemma ConnectRefuses(t: Target)
    ensures ConnectRequest(t).Ok? <==>
      t.Split? && t.port.Some? && 1 <= t.port.value <= 65535 && (t.host.Name? ==> |t.host.addr| <= 255)
    ensures t.Unsplit? ==> ConnectRequest(t) == Err(BadTarget)
    ensures t.Split? && (t.port.None? || !(1 <= t.port.value <= 65535)) ==> ConnectRequest(t) == Err(BadPort)
    ensures t.Split? && t.port.Some? && 1 <= t.port.value <= 65535 && t.host.Name? && |t.host.addr| > 255 ==> ConnectRequest(t) == Err(HostTooLong)
  {
  }

  // ----- a method that was not offered -----

  /** Of the methods the client goes on with, it offered exactly these. */
  lemma OfferedExactly(user: Bytes, pass: Bytes, chosen: byte)
    requires chosen == 0 || chosen == 2
    ensures DecodeMethods(Greeting(user, pass)).Some?
    ensures chosen in DecodeMethods(Greeting(user, pass)).value.0 <==> chosen == 0 || AuthRequired(user, pass)
  {
    GreetingRoundTrip(user, pass, []);
    assert Greeting(user, pass) + [] == Greeting(user, pass);
  }

  /** A server that picks user/password though only method 0 was offered: the client goes on and sends empty credentials. */
  method AcceptsUnoffered(t: Target) returns (err: Option<Error>, sent: Bytes)
    requires ConnectRequest(t).Ok? && ValidHost(t.host)
    ensures err == None
    ensures DecodeClient(sent, 2) == Some(Session([0], Some(([], [])), t.host, t.port.value, []))
  {
    hide ConnectRequest, DecodeClient, ClientBytes;
    var server: Bytes := [5, 2, 1, 0, 5, 0, 0, 1, 0, 0, 0, 0, 0, 0];
    var conn := new Conn(server, 3);
    assert server[..14] == server && server[4..] == [5, 0, 0, 1, 0, 0, 0, 0, 0, 0];
    assert AcceptingUpTo(server, 14, 2);
    ghost var chosen;
    err, chosen := conn.Handshake([], [], t);
    sent := conn.output;
    assert chosen == 2 && sent == [] + ClientBytes([], [], t, 2) == ClientBytes([], [], t, 2);
    ServerRecoversClient([], [], t, 2, []);
    assert ClientBytes([], [], t, 2) + [] == ClientBytes([], [], t, 2);
  }

  // ----- the reply, written out -----

  /** A success reply as section 6 of RFC 1928 writes it: version, status, a reserved octet, the bound address, the port. */
  ghost function ReplyBytes(reserved: byte, bound: Host, hi: byte, lo: byte): Bytes
    requires ValidHost(bound) && (bound.Name? ==> |bound.addr| <= 255)
  {
    var address := match bound case Ip4(a) => [1] + a case Ip6(a) => [4] + a case Name(a) => [3, |a|] + a;
    [5, 0, reserved] + address + [hi, lo]
  }

  /** The client takes exactly these for success. */
  lemma AcceptsSuccessReplies(reserved: byte, bound: Host, hi: byte, lo: byte)
    requires ValidHost(bound) && (bound.Name? ==> |bound.addr| <= 255)
    ensures AcceptReply(ReplyBytes(reserved, bound, hi, lo))
  {
  }

  lemma AcceptedIsSuccessReply(r: Bytes) returns (bound: Host)
    requires AcceptReply(r)
    ensures ValidHost(bound) && (bound.Name? ==> |bound.addr| <= 255) && r == ReplyBytes(r[2], bound, r[|r| - 2], r[|r| - 1])
  {
    var n := |r|;
    assert [5, 0, r[2]] == r[..3] && [r[n - 2], r[n - 1]] == r[n - 2..];
    if r[3] == 1 {
      bound := Ip4(r[4..8]);
      Reassemble(r, 3, [1] + r[4..8]);
    } else if r[3] == 4 {
      bound := Ip6(r[4..20]);
      Reassemble(r, 3, [4] + r[4..20]);
    } else {
      bound := Name(r[5..n - 2]);
      Reassemble(r, 3, [3, r[4]] + r[5..n - 2]);
    }
  }

  lemma Reassemble(r: Bytes, n: nat, middle: Bytes)
    requires n + 2 <= |r| && middle == r[n..|r| - 2]
    ensures r[..n] + middle + r[|r| - 2..] == r
  {
  }
}
