/** The wire formats, octet by octet: positions, type octets, network order, and the text of the HTTP request line. */
module WireOctets {
  import opened Address
  import opened Bytes
  import ExactRead
  import HttpConnect
  import KeyProtocol
  import Protocol
  import Socks5Codec
  import UdpFrames

  /** Two octets in network order. */
  predicate Big16(b: bytes, i: nat, v: nat) { i + 2 <= |b| && v == 256 * (b[i] as int) + b[i + 1] as int }

  predicate Big32(b: bytes, v: nat) {
    |b| >= 4 && v == 0x1_0000 * (256 * (b[0] as int) + b[1] as int) + 256 * (b[2] as int) + b[3] as int
  }

  // ----- addresses

  /** Types 1, 3 and 4; a name has its length in front, the port is behind the host. */
  lemma AddressOctets(t: Target)
    ensures WellFormed(t) <==>
              && t.port <= 65535
              && ((t.kind == 1 && |t.host| == 4) || (t.kind == 4 && |t.host| == 16)
                 || (t.kind == 3 && 1 <= |t.host| <= 255))
    ensures WellFormed(t) ==>
              var w, from := Wire(t), if t.kind == 3 then 2 else 1;
              && |w| == from + |t.host| + 2 && w[0] == t.kind && (t.kind == 3 ==> w[1] == |t.host|)
              && w[from..from + |t.host|] == t.host && Big16(w, from + |t.host|, t.port)
  {
  }

  /** In this module's own formats every type carries its length. */
  lemma HeaderOctets(t: Target)
    requires WellFormed(t)
    ensures var h := Protocol.Header(t);
            && |h| == 4 + |t.host| && h[0] == t.kind && h[1] == |t.host|
            && h[2..2 + |t.host|] == t.host && Big16(h, 2 + |t.host|, t.port)
  {
  }

  // ----- Trojan

  /** Address, length of the payload, CR LF, payload. */
  lemma FrameOctets(f: UdpFrames.Frame)
    requires UdpFrames.FrameOk(f)
    ensures var w, n := UdpFrames.FrameWire(f), |Wire(f.addr)|;
            && |w| == n + 4 + |f.payload| && w[..n] == Wire(f.addr) && Big16(w, n, |f.payload|)
            && w[n + 2] == 13 && w[n + 3] == 10 && w[n + 4..] == f.payload
  {
    hide Wire;
    var w, n := UdpFrames.FrameWire(f), |Wire(f.addr)|;
    var tail := PutU16(|f.payload|) + [CR, LF] + f.payload;
    assert w == Wire(f.addr) + tail && w[n..] == tail;
    assert w[n] == tail[0] && w[n + 1] == tail[1] && w[n + 2] == tail[2] && w[n + 3] == tail[3];
  }

  /** What is asked for when an address from the i-th octet on has begun. */
  function AddressAsks(b: bytes, i: nat): nat
    requires i < |b|
  {
    if b[i] == 1 then 7
    else if b[i] == 4 then 19
    else if |b| < i + 2 then 2
    else 4 + (b[i + 1] as int)
  }

  /** A request is whole as soon as its command, its address and two more octets are there. */
  lemma TrojanIsWhole(b: bytes, n: nat)
    ensures ExactRead.TrojanSize(b) == ExactRead.Done(n) <==>
              && 7 <= n <= |b| && (b[0] == 1 || b[0] == 3)
              && ((b[1] == 1 && n == 10) || (b[1] == 4 && n == 22) || (b[1] == 3 && n == 7 + b[2] as int))
    ensures ExactRead.TrojanSize(b).Bad? <==>
              |b| >= 2 && ((b[0] != 1 && b[0] != 3) || (b[1] != 1 && b[1] != 3 && b[1] != 4))
    ensures ExactRead.TrojanSize(b).More? ==>
              ExactRead.TrojanSize(b).n ==
                if |b| < 2 then 2 else if b[1] == 3 && |b| < 3 then 3 else AddressAsks(b, 1) + 3
  {
  }

  // ----- SOCKS5

  lemma GreetingIsWhole(b: bytes, n: nat)
    ensures ExactRead.GreetingSize(b) == ExactRead.Done(n) <==> 2 <= n <= |b| && b[0] == 5 && n == 2 + b[1] as int
    ensures ExactRead.GreetingSize(b).Bad? <==> |b| >= 2 && b[0] != 5
    ensures ExactRead.GreetingSize(b).More? ==>
              ExactRead.GreetingSize(b).n == if |b| < 2 then 2 else 2 + (b[1] as int)
  {
  }

  /** The length of an address from its fourth octet on. */
  predicate AddressEnds(b: bytes, n: nat) {
    7 <= n <= |b| && ((b[3] == 1 && n == 10) || (b[3] == 4 && n == 22) || (b[3] == 3 && n == 7 + b[4] as int))
  }

  lemma RequestIsWhole(b: bytes, n: nat)
    ensures ExactRead.RequestSize(b) == ExactRead.Done(n) <==>
              AddressEnds(b, n) && b[0] == 5 && (b[1] == 1 || b[1] == 3) && b[2] == 0
    ensures ExactRead.RequestSize(b).Bad? <==>
              |b| >= 4 && (b[0] != 5 || (b[1] != 1 && b[1] != 3) || b[2] != 0 || b[3] !in {1, 3, 4})
    ensures ExactRead.RequestSize(b).More? ==>
              ExactRead.RequestSize(b).n == if |b| < 4 then 4 else 3 + AddressAsks(b, 3)
  {
  }

  lemma ResponseIsWhole(b: bytes, n: nat)
    ensures ExactRead.ResponseSize(b) == ExactRead.Done(n) <==> AddressEnds(b, n) && b[0] == 5 && b[2] == 0
    ensures ExactRead.ResponseSize(b).Bad? <==> |b| >= 4 && (b[0] != 5 || b[2] != 0 || b[3] !in {1, 3, 4})
    ensures ExactRead.ResponseSize(b).More? ==>
              ExactRead.ResponseSize(b).n == if |b| < 4 then 4 else 3 + AddressAsks(b, 3)
  {
  }

  /** Version, method count, methods: 0 is "none", 2 is "user name and password". */
  lemma GreetingOctets(userpass: bool)
    ensures Socks5Codec.Greeting(userpass) == if userpass then [5, 2, 0, 2] else [5, 1, 0]
  {
  }

  lemma MethodOctets(b: bytes, userpass: bool)
    ensures Socks5Codec.ParseMethodResponse(b, userpass).Open? <==> |b| >= 2 && b[0] == 5 && b[1] == 0
    ensures Socks5Codec.ParseMethodResponse(b, userpass).Credentials? <==>
              userpass && |b| >= 2 && b[0] == 5 && b[1] == 2
    ensures Socks5Codec.AuthAccepted(b) <==> |b| >= 2 && b[0] == 1 && b[1] == 0
  {
  }

  lemma MessageOctets(second: byte, t: Target, payload: bytes)
    requires WellFormed(t)
    ensures var m, n := Socks5Codec.Message(second, t), |Wire(t)|;
            |m| == 3 + n && m[0] == 5 && m[1] == second && m[2] == 0 && m[3..] == Wire(t)
    ensures var p, n := Socks5Codec.UdpPacket(t, payload), |Wire(t)|;
            p[0] == 0 && p[1] == 0 && p[2] == 0 && p[3..3 + n] == Wire(t) && p[3 + n..] == payload
  {
    hide Wire;
  }

  /** The server's reading of a credentials message (section 2 of RFC 1929). */
  function ReadAuth(b: bytes): Option<(bytes, bytes)> {
    if |b| < 3 || b[0] != 1 then None
    else
      var n: nat := b[1];
      if |b| < 3 + n then None
      else
        var m: nat := b[2 + n];
        if |b| < 3 + n + m then None else Some((b[2..2 + n], b[3 + n..3 + n + m]))
  }

  /** Both credentials are read back, whatever follows them. */
  lemma AuthRoundTrip(username: bytes, password: bytes, rest: bytes)
    requires 1 <= |username| <= 255 && |password| <= 255
    ensures Socks5Codec.CredentialsOk(username, password)
    ensures ReadAuth(Socks5Codec.Auth(username, password) + rest) == Some((username, password))
  {
    var b, n := Socks5Codec.Auth(username, password) + rest, |username|;
    assert b[2..2 + n] == username;
    assert b[2 + n] == |password|;
    assert b[3 + n..3 + n + |password|] == password;
  }

  // ----- the module's own formats

  lemma BootstrapOctets(x: Protocol.Bootstrap, keyed: bool)
    ensures Protocol.BootstrapOk(x, keyed) <==>
              && (x.cmd == 1 || x.cmd == 3) && (if keyed then x.protection <= 2 else x.protection == 0)
              && WellFormed(x.addr) && |x.payload| <= 16384
    ensures WellFormed(x.addr) ==>
              var w, n := Protocol.BootstrapWire(x), |Protocol.Header(x.addr)|;
              && w[0] == x.cmd && w[1] == x.protection && w[2..2 + n] == Protocol.Header(x.addr)
              && w[2 + n..] == x.payload
  {
    hide Protocol.Header;
  }

  /** The two top bits of the first octet: 00 for data, 10 for an init. */
  lemma ClassOctets(b: bytes)
    ensures Protocol.PacketClass(b).DataClass? <==> b != [] && b[0] / 64 == 0
    ensures Protocol.PacketClass(b).InitClass? <==> b != [] && b[0] / 64 == 2
    ensures Protocol.PacketClass(b).Reserved1? <==> b != [] && b[0] / 64 == 1
  {
  }

  lemma UdpInitOctets(x: Protocol.UdpInit)
    requires Protocol.UdpInitOk(x, false)
    ensures |x.flowId| == 8 && x.flowId[0] / 64 == 0 && x.protection == 0
    ensures var w, n := Protocol.UdpInitWire(x), |Protocol.Header(x.addr)|;
            && w[0] == 128 && w[1..9] == x.flowId && w[9..9 + n] == Protocol.Header(x.addr) && w[9 + n..] == x.payload
  {
    hide Protocol.Header;
    var w, n := Protocol.UdpInitWire(x), |Protocol.Header(x.addr)|;
    assert w[9..] == Protocol.Header(x.addr) + x.payload;
    assert w[9 + n..] == w[9..][n..] && w[9..9 + n] == w[9..][..n];
  }

  lemma UdpDataOctets(x: Protocol.UdpData)
    ensures Protocol.UdpDataOk(x) <==> |x.flowId| == 8 && x.flowId[0] / 64 == 0
    ensures |x.flowId| == 8 ==> Protocol.UdpDataWire(x)[..8] == x.flowId && Protocol.UdpDataWire(x)[8..] == x.payload
  {
  }

  /** The length counts address and payload. */
  lemma StreamFrameOctets(x: Protocol.StreamFrame)
    requires Protocol.StreamFrameOk(x)
    ensures var w, n := Protocol.StreamFrameWire(x), |Protocol.Header(x.addr)|;
            && Big16(w, 0, n + |x.payload|) && w[2..2 + n] == Protocol.Header(x.addr) && w[2 + n..] == x.payload
  {
    hide Protocol.Header;
    var w, n := Protocol.StreamFrameWire(x), |Protocol.Header(x.addr)|;
    assert w == PutU16(n + |x.payload|) + (Protocol.Header(x.addr) + x.payload);
    assert w[2..] == Protocol.Header(x.addr) + x.payload;
    assert w[2 + n..] == w[2..][n..] && w[2..2 + n] == w[2..][..n];
  }

  predicate Fits(kind: byte, n: byte) { (kind == 1 && n == 4) || (kind == 4 && n == 16) || (kind == 3 && n > 0) }

  /** Which answer each decoder gives before it has an address, and because of one. */
  lemma HeaderAnswers(b: bytes)
    ensures |b| < 4 ==> Protocol.ReadAddr(b).Again?
    ensures |b| >= 4 ==>
              && (Protocol.ReadAddr(b).Again? <==> Fits(b[0], b[1]) && |b| < 4 + b[1] as int)
              && (Protocol.ReadAddr(b).Invalid? <==> !Fits(b[0], b[1]))
    ensures !Protocol.ReadAddr(b).NoSpace?
  {
  }

  lemma BootstrapAnswers(b: bytes, keyed: bool)
    ensures |b| < 6 ==> Protocol.DecodeBootstrap(b, keyed).Again?
    ensures |b| >= 6 ==>
              var good := (b[0] == 1 || b[0] == 3) && (if keyed then b[1] <= 2 else b[1] == 0);
              && (Protocol.DecodeBootstrap(b, keyed).Again? <==> good && Protocol.ReadAddr(b[2..]).Again?)
              && (Protocol.DecodeBootstrap(b, keyed).Invalid? <==> !good || Protocol.ReadAddr(b[2..]).Invalid?)
    ensures !Protocol.DecodeBootstrap(b, keyed).NoSpace?
  {
    hide Protocol.ReadAddr;
    if |b| >= 2 { HeaderAnswers(b[2..]); }
  }

  lemma UdpAnswers(b: bytes)
    ensures |b| < 13 ==> Protocol.DecodeUdpInit(b).Again?
    ensures |b| >= 13 ==>
              && (Protocol.DecodeUdpInit(b).Again? <==>
                 b[0] == 128 && b[1] / 64 == 0 && Protocol.ReadAddr(b[9..]).Again?)
              && (Protocol.DecodeUdpInit(b).Invalid? <==>
                 b[0] != 128 || b[1] / 64 != 0 || Protocol.ReadAddr(b[9..]).Invalid?)
    ensures !Protocol.DecodeUdpInit(b).NoSpace?
    ensures Protocol.DecodeUdpData(b).Again? <==> |b| < 8
    ensures Protocol.DecodeUdpData(b).Invalid? <==> |b| >= 8 && b[0] / 64 != 0
  {
    hide Protocol.ReadAddr;
    if |b| >= 9 { HeaderAnswers(b[9..]); }
  }

  lemma StreamFrameAnswers(b: bytes)
    ensures |b| < 2 ==> Protocol.DecodeStreamFrame(b).Again?
    ensures |b| >= 2 ==>
              var end := 2 + 256 * (b[0] as int) + b[1] as int;
              if |b| < end then Protocol.DecodeStreamFrame(b).Again?
              else
                && (Protocol.DecodeStreamFrame(b).Again? <==> Protocol.ReadAddr(b[2..end]).Again?)
                && (Protocol.DecodeStreamFrame(b).Invalid? <==> Protocol.ReadAddr(b[2..end]).Invalid?)
    ensures !Protocol.DecodeStreamFrame(b).NoSpace?
  {
    hide Protocol.ReadAddr;
    if |b| >= 2 && |b| >= 2 + Protocol.Announced(b) { HeaderAnswers(b[2..2 + Protocol.Announced(b)]); }
  }

  // ----- under a key

  /** A record: 12 octets of nonce, two of length, the ciphertext, 16 octets of tag. */
  lemma RecordOctets(c: KeyProtocol.Crypto, nonce: bytes, plain: bytes)
    requires KeyProtocol.Sized(c) && |nonce| == 12 && |plain| <= 65535 && KeyProtocol.Record(c, nonce, plain).Some?
    ensures var w, n := KeyProtocol.Record(c, nonce, plain).value, |plain|;
            && |w| == 30 + n && w[..12] == nonce && Big16(w, 12, n)
            && c.seal(nonce, plain) == Some((w[14..14 + n], w[14 + n..]))
  {
    var (text, tag) := c.seal(nonce, plain).value;
    var w, n := KeyProtocol.Record(c, nonce, plain).value, |plain|;
    assert w == nonce + PutU16(n) + (text + tag);
    assert w[12] == PutU16(n)[0] && w[13] == PutU16(n)[1];
    assert w[14..] == text + tag;
    assert w[14..14 + n] == w[14..][..n] && w[14 + n..] == w[14..][n..];
  }

  /** A record asks for more exactly until it has the length it announces, which is at most 32768. */
  lemma RecordWaits(c: KeyProtocol.Crypto, b: bytes, room: nat)
    ensures |b| < 14 ==> KeyProtocol.OpenRecord(c, b, room).Again?
    ensures |b| >= 14 ==>
              var n := 256 * (b[12] as int) + b[13] as int;
              && (KeyProtocol.OpenRecord(c, b, room).Again? <==> n <= 32768 && |b| < 30 + n)
              && (n > 32768 ==> KeyProtocol.OpenRecord(c, b, room).Invalid?)
  {
  }

  /** A datagram: nonce, ciphertext, tag. */
  lemma DatagramOctets(c: KeyProtocol.Crypto, nonce: bytes, plain: bytes)
    requires KeyProtocol.Sized(c) && |nonce| == 12 && KeyProtocol.Protected(c, nonce, plain).Some?
    ensures var w, n := KeyProtocol.Protected(c, nonce, plain).value, |plain|;
            && |w| == 28 + n && w[..12] == nonce && c.seal(nonce, plain) == Some((w[12..12 + n], w[12 + n..]))
  {
    var (text, tag) := c.seal(nonce, plain).value;
    var w, n := KeyProtocol.Protected(c, nonce, plain).value, |plain|;
    assert w == nonce + (text + tag) && w[12..] == text + tag;
    assert w[12..12 + n] == w[12..][..n] && w[12 + n..] == w[12..][n..];
  }

  lemma DatagramWaits(c: KeyProtocol.Crypto, b: bytes, room: nat)
    ensures KeyProtocol.Unprotect(c, b, room).Again? <==> |b| < 28
    ensures |b| > 28 + 32768 ==> KeyProtocol.Unprotect(c, b, room).Invalid?
  {
  }

  /** What is sealed in a bootstrap: the epoch in network order, then the bootstrap. */
  lemma KeyBootstrapOctets(x: KeyProtocol.KeyBootstrap)
    requires KeyProtocol.KeyBootstrapOk(x)
    ensures var s := KeyProtocol.KeyPlain(x);
            Big32(s, x.epoch) && s[4..] == Protocol.BootstrapWire(x.body)
  {
    hide Protocol.BootstrapWire, PutU32, U32;
    EpochOctets(x.epoch, KeyProtocol.KeyPlain(x));
  }

  lemma EpochOctets(v: nat, b: bytes)
    requires v < 0x1_0000_0000 && PutU32(v) <= b
    ensures Big32(b, v)
  {
    var s := PutU32(v);
    assert U32(s) == v;
    hide PutU32;
    assert forall i :: 0 <= i < 4 ==> b[i] == s[i];
  }

  /** What is sealed in an init: the epoch, the protection, the flow, the address, the payload. */
  lemma KeyUdpInitOctets(x: KeyProtocol.KeyUdpInit)
    requires KeyProtocol.KeyUdpInitOk(x)
    ensures x.body.protection <= 2 && |x.body.flowId| == 8 && x.body.flowId[0] / 64 == 0
    ensures var s, n := KeyProtocol.KeyUdpPlain(x), |Protocol.Header(x.body.addr)|;
            && s[..4] == PutU32(x.epoch) && s[4] == x.body.protection && s[5..13] == x.body.flowId
            && s[13..13 + n] == Protocol.Header(x.body.addr) && s[13 + n..] == x.body.payload
  {
    hide Protocol.Header, PutU32, U32;
    KeyProtocol.KeyUdpParts(x);
    var s, n := KeyProtocol.KeyUdpPlain(x), |Protocol.Header(x.body.addr)|;
    assert s[13..13 + n] == s[13..][..n];
  }

  // ----- HTTP

  function Text(s: string): bytes
    requires forall i :: 0 <= i < |s| ==> s[i] as int < 256
  {
    seq(|s|, i requires 0 <= i < |s| => s[i] as byte)
  }

  lemma LineText(host: bytes, port: nat)
    ensures HttpConnect.Line(host, port, false) ==
              Text("CONNECT ") + host + Text(":") + HttpConnect.Decimal(port) + Text(" HTTP/1.")
    ensures HttpConnect.Line(host, port, true) ==
              Text("CONNECT [") + host + Text("]:") + HttpConnect.Decimal(port) + Text(" HTTP/1.")
  {
    hide HttpConnect.Decimal;
    assert Text("CONNECT ") == HttpConnect.METHOD && Text(" HTTP/1.") == [32] + HttpConnect.VERSION;
    assert Text(":") == [58] && Text("]:") == [93, 58] && Text("CONNECT [") == HttpConnect.METHOD + [91];
    var d := HttpConnect.Decimal(port);
    assert HttpConnect.Line(host, port, true) ==
           (HttpConnect.METHOD + [91]) + host + [93, 58] + d + ([32] + HttpConnect.VERSION);
    assert HttpConnect.Line(host, port, false) ==
           HttpConnect.METHOD + host + [58] + d + ([32] + HttpConnect.VERSION);
  }

  /** The methods that are answered as not allowed. */
  function OtherMethods(): seq<bytes> {
    [Text("GET "), Text("POST "), Text("HEAD "), Text("PUT "), Text("DELETE "), Text("OPTIONS "), Text("PATCH "),
      Text("TRACE ")]
  }

  lemma OthersText()
    ensures HttpConnect.METHOD == Text("CONNECT ") && HttpConnect.OTHERS == OtherMethods()
  {
    assert Text("GET ") == HttpConnect.OTHERS[0] && Text("POST ") == HttpConnect.OTHERS[1];
    assert Text("HEAD ") == HttpConnect.OTHERS[2] && Text("PUT ") == HttpConnect.OTHERS[3];
    assert Text("DELETE ") == HttpConnect.OTHERS[4] && Text("OPTIONS ") == HttpConnect.OTHERS[5];
    assert Text("PATCH ") == HttpConnect.OTHERS[6] && Text("TRACE ") == HttpConnect.OTHERS[7];
  }

  /** A complete header is answered so exactly when its line has at least 17 octets and begins with one of them. */
  lemma NotAllowedIff(p: HttpConnect.Numeric, b: bytes, n: nat)
    requires HttpConnect.HeaderEnd(b) == Some(n)
    ensures HttpConnect.ParseConnect(p, b).NotAllowed? <==>
              && HttpConnect.LineEndFrom(b[..n], 0) >= 17
              && exists k :: 0 <= k < |OtherMethods()| && OtherMethods()[k] <= b
  {
    hide Text, HttpConnect.HeaderEndFrom, HttpConnect.LineEndFrom, HttpConnect.Seek, HttpConnect.AddressOf;
    OthersText();
    forall k | 0 <= k < |HttpConnect.OTHERS| && |b| >= 17
      ensures 0 < |HttpConnect.OTHERS[k]| < 17 && HttpConnect.OTHERS[k][0] != HttpConnect.METHOD[0]
      ensures HttpConnect.HasPrefix(b, HttpConnect.OTHERS[k]) <==> HttpConnect.OTHERS[k] <= b
      ensures HttpConnect.OTHERS[k] <= b ==> !(HttpConnect.METHOD <= b)
    {
    }
  }

  /** Octets look like HTTP as long as they agree with the beginning of one of the nine methods. */
  lemma LooksLikeHttpIff(b: bytes)
    ensures HttpConnect.LooksLikeHttp(b) <==>
              b != [] && exists m :: m in [Text("CONNECT ")] + OtherMethods() && (m <= b || b <= m)
  {
    hide Text;
    OthersText();
    var all := [Text("CONNECT ")] + OtherMethods();
    assert forall m :: HttpConnect.HasPrefix(b, m) <==> m <= b || b <= m;
    assert all[0] in all;
    forall k | 0 <= k < |OtherMethods()| ensures OtherMethods()[k] in all { assert all[k + 1] == OtherMethods()[k]; }
    if m :| m in all && (m <= b || b <= m) {
      var k :| 0 <= k < |all| && all[k] == m;
      assert k == 0 || OtherMethods()[k - 1] == m;
    }
  }

  predicate BlankLine(b: bytes, i: nat) { i + 4 <= |b| && b[i..i + 4] == [13, 10, 13, 10] }

  /** Without a blank line one more octet is asked for. */
  lemma AsksForOne(p: HttpConnect.Numeric, b: bytes)
    ensures HttpConnect.ParseConnect(p, b).NeedMore? <==> forall i :: 0 <= i < |b| ==> !BlankLine(b, i)
    ensures HttpConnect.ParseConnect(p, b).NeedMore? ==> HttpConnect.ParseConnect(p, b).n == |b| + 1
  {
    hide HttpConnect.ParseLine, HttpConnect.LineEndFrom;
    assert forall i :: 0 <= i < |b| ==> (BlankLine(b, i) <==> HttpConnect.BlankLineAt(b, i));
    if HttpConnect.HeaderEnd(b).Some? {
      assert BlankLine(b, HttpConnect.HeaderEnd(b).value - 4);
      NeverNeedsMore(p, b);
    }
  }

  lemma NeverNeedsMore(p: HttpConnect.Numeric, b: bytes)
    requires HttpConnect.HeaderEnd(b).Some?
    ensures !HttpConnect.ParseConnect(p, b).NeedMore?
  {
    hide HttpConnect.HeaderEnd, HttpConnect.LineEndFrom, HttpConnect.AddressOf, HttpConnect.Seek;
  }

  /** inet_pton sees the host up to its first NUL; a host that it does not take, or that is too long for the text of an
      address, is a name. */
  lemma HostAddress(p: HttpConnect.Numeric, host: bytes, port: nat, text: bytes)
    requires (forall i :: 0 <= i < |text| ==> text[i] != 0) && (host == text || text + [0] <= host)
    ensures HttpConnect.FillHost(p, host, port) ==
              if host == [] || |host| > 255 then None
              else if |host| <= 16 && p.v4(text).Some? then Some(Target(1, p.v4(text).value, port))
              else if |host| <= 46 && p.v6(text).Some? then Some(Target(4, p.v6(text).value, port))
              else Some(Target(3, host, port))
  {
    if host != text { assert (text + [0])[|text|] == host[|text|]; }
    assert forall i :: 0 <= i < |text| ==> host[i] == text[i];
    var r := HttpConnect.Seek(host, 0, 0, |host|);
    assert r == |text|;
    assert host[..|text|] == text;
  }
}
