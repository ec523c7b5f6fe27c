/** SOCKS5 messages (RFC 1928, RFC 1929): building and parsing. */
module Socks5Codec {
  import opened Address
  import opened Bytes
  import opened ExactRead

  const AUTH_VERSION: byte := 1
  const NO_AUTH: byte := 0
  const USERPASS: byte := 2
  const NO_METHOD: byte := 255
  const STATUS_OK: byte := 0

  // ----- greeting, method choice, credentials

  function Greeting(userpass: bool): bytes {
    if userpass then [VERSION, 2, NO_AUTH, USERPASS] else [VERSION, 1, NO_AUTH]
  }

  datatype Chosen = Open | Credentials | Refused

  function ParseMethodResponse(b: bytes, userpass: bool): Chosen {
    if |b| < 2 || b[0] != VERSION then Refused
    else if b[1] == NO_AUTH then Open
    else if userpass && b[1] == USERPASS then Credentials
    else Refused
  }

  predicate CredentialsOk(username: bytes, password: bytes) { 1 <= |username| <= 255 && |password| <= 255 }

  function Auth(username: bytes, password: bytes): bytes
    requires CredentialsOk(username, password)
  {
    [AUTH_VERSION, |username|] + username + [|password|] + password
  }

  predicate AuthAccepted(b: bytes) { |b| >= 2 && b[0] == AUTH_VERSION && b[1] == 0 }

  /** The server side takes "no authentication" wherever it stands in the offer. */
  method SelectMethod(b: bytes) returns (r: Option<byte>)
    ensures r.Some? <==> GreetingSize(b).Done?
    ensures r.Some? ==> r.value == if NO_AUTH in b[2..GreetingSize(b).n] then NO_AUTH else NO_METHOD
  {
    if !GreetingSize(b).Done? {
      return None;
    }
    var n: nat := b[1];
    for i := 0 to n
      invariant NO_AUTH !in b[2..2 + i]
    {
      if b[2 + i] == NO_AUTH {
        assert NO_AUTH == b[2..2 + n][i];
        return Some(NO_AUTH);
      }
      assert b[2..2 + i + 1] == b[2..2 + i] + [b[2 + i]];
    }
    r := Some(NO_METHOD);
  }

  // ----- requests and replies

  function Message(second: byte, t: Target): (s: bytes)
    requires WellFormed(t)
    ensures |s| == 3 + |Wire(t)|
  {
    [VERSION, second, 0] + Wire(t)
  }

  function ParseRequest(b: bytes): Option<(byte, Target)> {
    if !RequestSize(b).Done? then None
    else
      match Parse(b[3..RequestSize(b).n])
      case Some((t, _)) => Some((b[1], t))
      case None => None
  }

  function ParseResponse(b: bytes): Option<Target> {
    if !ResponseSize(b).Done? || b[1] != STATUS_OK then None
    else
      match Parse(b[3..ResponseSize(b).n])
      case Some((t, _)) => Some(t)
      case None => None
  }

  lemma AddrSizeWire(t: Target, rest: bytes)
    requires WellFormed(t)
    ensures AddrSize(Wire(t) + rest) == Done(|Wire(t)|)
  {
    var b := Wire(t) + rest;
    assert b[0] == t.kind;
    if t.kind == DOMAIN { assert b[1] == |t.host|; }
  }

  /** A built message has the announced length, whatever follows it. */
  lemma MessageSize(second: byte, t: Target, rest: bytes)
    requires WellFormed(t)
    ensures ResponseSize(Message(second, t) + rest) == Done(|Message(second, t)|)
    ensures second == CONNECT || second == ASSOCIATE ==>
            RequestSize(Message(second, t) + rest) == Done(|Message(second, t)|)
  {
    var b := Message(second, t) + rest;
    assert b[3..] == Wire(t) + rest;
    AddrSizeWire(t, rest);
  }

  lemma RequestRoundTrip(command: byte, t: Target, rest: bytes)
    requires WellFormed(t) && (command == CONNECT || command == ASSOCIATE)
    ensures ParseRequest(Message(command, t) + rest) == Some((command, t))
  {
    var b := Message(command, t) + rest;
    MessageSize(command, t, rest);
    assert b[3..|Message(command, t)|] == Wire(t) + [];
    ParseWire(t, []);
  }

  lemma ResponseRoundTrip(t: Target, rest: bytes)
    requires WellFormed(t)
    ensures ParseResponse(Message(STATUS_OK, t) + rest) == Some(t)
  {
    var b := Message(STATUS_OK, t) + rest;
    MessageSize(STATUS_OK, t, rest);
    assert b[3..|Message(STATUS_OK, t)|] == Wire(t) + [];
    ParseWire(t, []);
  }

  lemma After3Sound(b: bytes, n: nat)
    requires |b| >= 4 && After3(b) == Done(n) && 3 <= n <= |b| && Parse(b[3..n]).Some?
    ensures var t := Parse(b[3..n]).value.0; WellFormed(t) && b[3..n] == Wire(t)
  {
    var c := b[3..n];
    ParseSound(c);
    assert c[0] == b[3];
    assert c[..Parse(c).value.1] == c;
  }

  /** What parses as a request is a request on the wire, octet for octet. */
  lemma RequestSound(b: bytes)
    requires ParseRequest(b).Some?
    ensures var (command, t) := ParseRequest(b).value;
            && (command == CONNECT || command == ASSOCIATE) && WellFormed(t)
            && RequestSize(b) == Done(|Message(command, t)|) && Message(command, t) <= b
  {
    hide Parse, Wire, AddrSize, After3;
    var n := RequestSize(b).n;
    After3Sound(b, n);
    assert b[..n] == [b[0], b[1], b[2]] + b[3..n];
  }

  /** What parses as a reply is an accepting reply on the wire, octet for octet. */
  lemma ResponseSound(b: bytes)
    requires ParseResponse(b).Some?
    ensures var t := ParseResponse(b).value;
            WellFormed(t) && ResponseSize(b) == Done(|Message(STATUS_OK, t)|) && Message(STATUS_OK, t) <= b
  {
    hide Parse, Wire, AddrSize, After3;
    var n := ResponseSize(b).n;
    After3Sound(b, n);
    assert b[..n] == [b[0], b[1], b[2]] + b[3..n];
  }

  /** A complete request is refused exactly when it names an empty host. */
  lemma RefusedIffEmptyName(b: bytes)
    requires RequestSize(b).Done?
    ensures ParseRequest(b).None? <==> b[3] == DOMAIN && b[4] == 0
  {
    var n := RequestSize(b).n;
    assert b[3..n][0] == b[3];
    if b[3] == DOMAIN { assert b[3..n][1] == b[4]; }
  }

  // ----- datagrams

  function UdpPacket(t: Target, payload: bytes): bytes
    requires WellFormed(t)
  {
    [0, 0, 0] + Wire(t) + payload
  }

  function ParseUdpPacket(b: bytes): Option<(Target, bytes)> {
    if |b| < 4 || b[0] != 0 || b[1] != 0 || b[2] != 0 then None
    else
      match Parse(b[3..])
      case Some((t, n)) => if |b| - 3 - n > 0xffff then None else Some((t, b[3 + n..]))
      case None => None
  }

  lemma UdpPacketRoundTrip(t: Target, payload: bytes)
    requires WellFormed(t) && |payload| <= 0xffff
    ensures ParseUdpPacket(UdpPacket(t, payload)) == Some((t, payload))
  {
    var b := UdpPacket(t, payload);
    assert b[3..] == Wire(t) + payload;
    ParseWire(t, payload);
    assert b[3 + |Wire(t)|..] == payload;
  }

  lemma UdpPacketSound(b: bytes)
    requires ParseUdpPacket(b).Some?
    ensures var (t, payload) := ParseUdpPacket(b).value;
            WellFormed(t) && |payload| <= 0xffff && b == UdpPacket(t, payload)
  {
    ParseSound(b[3..]);
    var n := Parse(b[3..]).value.1;
    assert b == b[..3] + b[3..][..n] + b[3 + n..];
  }

  // ----- the builders

  /** Three octets and an address: what requests, replies and datagrams begin with. */
  method BuildHead(lead: bytes, t: Target, out: array<byte>, more: nat) returns (written: Option<nat>)
    requires |lead| == 3 && t.port < 0x1_0000
    modifies out
    ensures written.Some? <==> WellFormed(t) && 3 + |Wire(t)| + more <= out.Length
    ensures written.Some? ==> written.value == 3 + |Wire(t)| && out[..written.value] == lead + Wire(t)
  {
    hide PutU16, U16;
    var wireLen := if t.kind == DOMAIN then 4 + |t.host| else 3 + |t.host|;
    if out.Length < 3 + wireLen + more {
      return None;
    }
    if !(t.kind == IPV4 && |t.host| == 4) && !(t.kind == IPV6 && |t.host| == 16)
       && !(t.kind == DOMAIN && 1 <= |t.host| <= 255) {
      return None;
    }
    var pos := Write(out, 0, lead);
    pos := Write(out, pos, if t.kind == DOMAIN then [t.kind, |t.host|] else [t.kind]);
    pos := Write(out, pos, t.host);
    pos := Write(out, pos, PutU16(t.port));
    Grouped(lead, Lead(t), t.host, PutU16(t.port));
    return Some(pos);
  }

  lemma Grouped(a: bytes, b: bytes, c: bytes, d: bytes)
    ensures [] + a + b + c + d == a + (b + c + d)
  {
  }

  method BuildRequest(command: byte, t: Target, out: array<byte>) returns (written: Option<nat>)
    requires t.port < 0x1_0000
    modifies out
    ensures written.Some? <==>
              (command == CONNECT || command == ASSOCIATE) && WellFormed(t) && 3 + |Wire(t)| <= out.Length
    ensures written.Some? ==> written.value == |Message(command, t)| && out[..written.value] == Message(command, t)
  {
    if command != CONNECT && command != ASSOCIATE {
      return None;
    }
    written := BuildHead([VERSION, command, 0], t, out, 0);
  }

  method BuildResponse(status: byte, t: Target, out: array<byte>) returns (written: Option<nat>)
    requires t.port < 0x1_0000
    modifies out
    ensures written.Some? <==> WellFormed(t) && 3 + |Wire(t)| <= out.Length
    ensures written.Some? ==> written.value == |Message(status, t)| && out[..written.value] == Message(status, t)
  {
    written := BuildHead([VERSION, status, 0], t, out, 0);
  }

  method BuildUdpPacket(t: Target, payload: bytes, out: array<byte>) returns (written: Option<nat>)
    requires t.port < 0x1_0000 && |payload| <= 0xffff
    modifies out
    ensures written.Some? <==> WellFormed(t) && 3 + |Wire(t)| + |payload| <= out.Length
    ensures written.Some? ==> written.value == |UdpPacket(t, payload)| && out[..written.value] == UdpPacket(t, payload)
  {
    written := BuildHead([0, 0, 0], t, out, |payload|);
    if written.Some? {
      var pos := Write(out, written.value, payload);
      written := Some(pos);
    }
  }

  method BuildGreeting(userpass: bool, out: array<byte>) returns (written: Option<nat>)
    modifies out
    ensures written.Some? <==> |Greeting(userpass)| <= out.Length
    ensures written.Some? ==> written.value == |Greeting(userpass)| && out[..written.value] == Greeting(userpass)
  {
    if out.Length < if userpass then 4 else 3 {
      return None;
    }
    var pos := Write(out, 0, if userpass then [VERSION, 2, NO_AUTH, USERPASS] else [VERSION, 1, NO_AUTH]);
    return Some(pos);
  }

  method BuildAuth(username: bytes, password: bytes, out: array<byte>) returns (written: Option<nat>)
    modifies out
    ensures written.Some? <==> CredentialsOk(username, password) && 3 + |username| + |password| <= out.Length
    ensures written.Some? ==>
              written.value == |Auth(username, password)| && out[..written.value] == Auth(username, password)
  {
    if |username| == 0 || |username| > 255 || |password| > 255 || out.Length < 3 + |username| + |password| {
      return None;
    }
    var pos := Write(out, 0, [AUTH_VERSION, |username|]);
    pos := Write(out, pos, username);
    pos := Write(out, pos, [|password|]);
    pos := Write(out, pos, password);
    assert [] + [AUTH_VERSION, |username|] + username + [|password|] + password == Auth(username, password);
    return Some(pos);
  }
}
