/** The module's own wire formats: addresses, TCP bootstraps, UDP packets, and their key-protected forms. */
module Protocol {
  import opened Address
  import opened Bytes

  const FLOW_ID_LEN := 8
  const NONCE_LEN := 12
  const TAG_LEN := 16
  const PAYLOAD_MAX := 16384
  const PLAIN_MAX := 32768

  const CONNECT: byte := 1
  const ASSOCIATE: byte := 3

  datatype Result<+T> = Ok(value: T) | Invalid | Again | NoSpace

  predicate ValidCmd(cmd: byte) { cmd == CONNECT || cmd == ASSOCIATE }

  /** Bootstrap (0) always; handshake (1) and full (2) only where a key protects the packet. */
  predicate ValidProtection(p: byte, keyed: bool) { if keyed then p <= 2 else p == 0 }

  predicate ValidAddr(kind: byte, n: nat) {
    (kind == IPV4 && n == 4) || (kind == IPV6 && n == 16) || (kind == DOMAIN && 0 < n <= 255)
  }

  // ----- addresses: here every type carries its length

  function Header(t: Target): (s: bytes)
    requires WellFormed(t)
    ensures |s| == 4 + |t.host|
  {
    [t.kind, |t.host|] + t.host + PutU16(t.port)
  }

  function ReadAddr(b: bytes): (r: Result<(Target, nat)>)
    ensures r.Ok? ==> 4 <= r.value.1 <= |b|
  {
    if |b| < 4 then Again
    else if !ValidAddr(b[0], b[1]) then Invalid
    else
      var n: nat := b[1];
      if |b| < 4 + n then Again
      else Ok((Target(b[0], b[2..2 + n], U16(b[2 + n], b[3 + n])), 4 + n))
  }

  lemma ReadAddrSound(b: bytes)
    requires ReadAddr(b).Ok?
    ensures var (t, n) := ReadAddr(b).value; WellFormed(t) && n == |Header(t)| && b[..n] == Header(t)
  {
    hide U16, PutU16;
    var n: nat := b[1];
    U16Unique(b[2 + n], b[3 + n]);
    assert b[..4 + n] == [b[0], b[1]] + b[2..2 + n] + [b[2 + n], b[3 + n]];
  }

  lemma ReadAddrHeader(t: Target, rest: bytes)
    requires WellFormed(t)
    ensures ReadAddr(Header(t) + rest) == Ok((t, |Header(t)|))
  {
    hide U16, PutU16;
    var b, n := Header(t) + rest, |t.host|;
    assert b[2..2 + n] == t.host;
    assert b[2 + n] == PutU16(t.port)[0] && b[3 + n] == PutU16(t.port)[1];
  }

  /** Every strict prefix of an address asks for more. */
  lemma ReadAddrPrefix(t: Target, k: nat)
    requires WellFormed(t) && k < |Header(t)|
    ensures ReadAddr(Header(t)[..k]) == Again
  {
  }

  /** An answer other than "more" is final. */
  lemma ReadAddrStable(b: bytes, more: bytes)
    requires ReadAddr(b) != Again
    ensures ReadAddr(b + more) == ReadAddr(b)
  {
    hide U16, PutU16;
    if ReadAddr(b).Ok? {
      ReadAddrSound(b);
      var (t, n) := ReadAddr(b).value;
      assert b + more == Header(t) + (b[n..] + more);
      ReadAddrHeader(t, b[n..] + more);
    }
  }

  // ----- TCP bootstrap

  datatype Bootstrap = Bootstrap(cmd: byte, protection: byte, addr: Target, payload: bytes)

  predicate BootstrapOk(x: Bootstrap, keyed: bool) {
    ValidCmd(x.cmd) && ValidProtection(x.protection, keyed) && WellFormed(x.addr) && |x.payload| <= PAYLOAD_MAX
  }

  function BootstrapWire(x: Bootstrap): (s: bytes)
    requires WellFormed(x.addr)
    ensures |s| == 2 + |Header(x.addr)| + |x.payload|
  {
    [x.cmd, x.protection] + Header(x.addr) + x.payload
  }

  /** The payload is whatever follows the address; only the header is consumed. */
  function DecodeBootstrap(b: bytes, keyed: bool): (r: Result<(Bootstrap, nat)>)
    ensures r.Ok? ==> 6 <= r.value.1 <= |b|
  {
    if |b| < 6 then Again
    else if !ValidCmd(b[0]) || !ValidProtection(b[1], keyed) then Invalid
    else
      match ReadAddr(b[2..])
      case Ok((t, n)) => Ok((Bootstrap(b[0], b[1], t, b[2 + n..]), 2 + n))
      case Invalid => Invalid
      case Again => Again
      case NoSpace => NoSpace
  }

  lemma BootstrapRoundTrip(x: Bootstrap, keyed: bool)
    requires BootstrapOk(x, keyed)
    ensures DecodeBootstrap(BootstrapWire(x), keyed) == Ok((x, 2 + |Header(x.addr)|))
  {
    hide U16, PutU16;
    var b := BootstrapWire(x);
    assert b[2..] == Header(x.addr) + x.payload;
    ReadAddrHeader(x.addr, x.payload);
    assert b[2 + |Header(x.addr)|..] == x.payload;
  }

  /** What decodes is what some bootstrap looks like on the wire. */
  lemma BootstrapSound(b: bytes, keyed: bool)
    requires DecodeBootstrap(b, keyed).Ok?
    ensures var (x, n) := DecodeBootstrap(b, keyed).value;
            && ValidCmd(x.cmd) && ValidProtection(x.protection, keyed) && WellFormed(x.addr)
            && n == 2 + |Header(x.addr)| && b == BootstrapWire(x)
  {
    hide U16, PutU16;
    ReadAddrSound(b[2..]);
    var n := ReadAddr(b[2..]).value.1;
    assert b == b[..2] + b[2..][..n] + b[2 + n..];
  }

  lemma BootstrapPrefix(x: Bootstrap, keyed: bool, k: nat)
    requires BootstrapOk(x, keyed) && k < 2 + |Header(x.addr)|
    ensures DecodeBootstrap(BootstrapWire(x)[..k], keyed) == Again
  {
    hide U16, PutU16;
    if k >= 6 {
      assert BootstrapWire(x)[..k][2..] == Header(x.addr)[..k - 2];
      ReadAddrPrefix(x.addr, k - 2);
    }
  }

  // ----- UDP packets told apart by the two top bits of the first octet

  datatype Class = DataClass | Reserved1 | InitClass | Reserved2

  function PacketClass(b: bytes): Class {
    if b == [] then Reserved2
    else if b[0] < 0x40 then DataClass
    else if b[0] < 0x80 then Reserved1
    else if b[0] < 0xc0 then InitClass
    else Reserved2
  }

  predicate FlowIdValid(id: bytes)
    requires |id| == FLOW_ID_LEN
  {
    id[0] < 0x40
  }

  /** flow_id[0] &= 0x3f */
  function FlowIdPrepared(id: bytes): (r: bytes)
    requires |id| == FLOW_ID_LEN
    ensures |r| == FLOW_ID_LEN && FlowIdValid(r)
    ensures FlowIdValid(id) ==> r == id
  {
    id[0 := id[0] % 0x40]
  }

  /** nonce[0] = (nonce[0] & 0x3f) | 0x80 */
  function NoncePrepared(nonce: bytes): (r: bytes)
    requires |nonce| == NONCE_LEN
    ensures |r| == NONCE_LEN && PacketClass(r) == InitClass
    ensures PacketClass(nonce) == InitClass ==> r == nonce
  {
    nonce[0 := nonce[0] % 0x40 + 0x80]
  }

  datatype UdpInit = UdpInit(protection: byte, flowId: bytes, addr: Target, payload: bytes)

  predicate UdpInitOk(x: UdpInit, keyed: bool) {
    ValidProtection(x.protection, keyed) && |x.flowId| == FLOW_ID_LEN && FlowIdValid(x.flowId) && WellFormed(x.addr)
  }

  function UdpInitWire(x: UdpInit): (s: bytes)
    requires UdpInitOk(x, false)
  {
    [0x80 + x.protection] + x.flowId + Header(x.addr) + x.payload
  }

  function DecodeUdpInit(b: bytes): Result<(UdpInit, nat)> {
    if |b| < 1 + FLOW_ID_LEN + 4 then Again
    else if PacketClass(b) != InitClass then Invalid
    else if !ValidProtection(b[0] % 0x40, false) || !FlowIdValid(b[1..9]) then Invalid
    else
      match ReadAddr(b[9..])
      case Ok((t, n)) => Ok((UdpInit(b[0] % 0x40, b[1..9], t, b[9 + n..]), 9 + n))
      case Invalid => Invalid
      case Again => Again
      case NoSpace => NoSpace
  }

  lemma UdpInitRoundTrip(x: UdpInit)
    requires UdpInitOk(x, false)
    ensures DecodeUdpInit(UdpInitWire(x)) == Ok((x, 9 + |Header(x.addr)|))
    ensures DecodeUdpData(UdpInitWire(x)) == Invalid
  {
    hide U16, PutU16;
    var b := UdpInitWire(x);
    assert b[1..9] == x.flowId;
    assert b[9..] == Header(x.addr) + x.payload;
    ReadAddrHeader(x.addr, x.payload);
    assert b[9 + |Header(x.addr)|..] == x.payload;
  }

  /** What decodes is what some init looks like on the wire. */
  lemma UdpInitSound(b: bytes)
    requires DecodeUdpInit(b).Ok?
    ensures var (x, n) := DecodeUdpInit(b).value;
            UdpInitOk(x, false) && n == 9 + |Header(x.addr)| && b == UdpInitWire(x)
  {
    hide U16, PutU16;
    ReadAddrSound(b[9..]);
    var n := ReadAddr(b[9..]).value.1;
    assert b == b[..1] + b[1..9] + b[9..][..n] + b[9 + n..];
  }

  datatype UdpData = UdpData(flowId: bytes, payload: bytes)

  predicate UdpDataOk(x: UdpData) { |x.flowId| == FLOW_ID_LEN && FlowIdValid(x.flowId) }

  function UdpDataWire(x: UdpData): bytes { x.flowId + x.payload }

  function DecodeUdpData(b: bytes): Result<UdpData> {
    if |b| < FLOW_ID_LEN then Again
    else if PacketClass(b) != DataClass then Invalid
    else Ok(UdpData(b[..FLOW_ID_LEN], b[FLOW_ID_LEN..]))
  }

  /** Data packets decode to what was sent, and to nothing else; they are never taken for an init. */
  lemma UdpDataRoundTrip(x: UdpData)
    requires UdpDataOk(x)
    ensures DecodeUdpData(UdpDataWire(x)) == Ok(x)
    ensures !DecodeUdpInit(UdpDataWire(x)).Ok?
  {
    assert UdpDataWire(x)[..FLOW_ID_LEN] == x.flowId && UdpDataWire(x)[FLOW_ID_LEN..] == x.payload;
  }

  lemma UdpDataSound(b: bytes)
    requires DecodeUdpData(b).Ok?
    ensures UdpDataOk(DecodeUdpData(b).value) && UdpDataWire(DecodeUdpData(b).value) == b
  {
    assert b == b[..FLOW_ID_LEN] + b[FLOW_ID_LEN..];
  }

  // ----- UDP frames inside a stream

  datatype StreamFrame = StreamFrame(addr: Target, payload: bytes)

  predicate StreamFrameOk(x: StreamFrame) { WellFormed(x.addr) && |Header(x.addr)| + |x.payload| < 0x1_0000 }

  function StreamFrameWire(x: StreamFrame): (s: bytes)
    requires StreamFrameOk(x)
  {
    PutU16(|Header(x.addr)| + |x.payload|) + Header(x.addr) + x.payload
  }

  /** The length the first two octets announce. */
  function Announced(b: bytes): nat
    requires |b| >= 2
  {
    U16(b[0], b[1])
  }

  function DecodeStreamFrame(b: bytes): Result<(StreamFrame, nat)> {
    if |b| < 2 then Again
    else
      var n := Announced(b);
      if |b| < 2 + n then Again
      else
        match ReadAddr(b[2..2 + n])
        case Ok((t, k)) => Ok((StreamFrame(t, b[2 + k..2 + n]), 2 + n))
        case Invalid => Invalid
        case Again => Again
        case NoSpace => NoSpace
  }

  lemma StreamFrameRoundTrip(x: StreamFrame, rest: bytes)
    requires StreamFrameOk(x)
    ensures DecodeStreamFrame(StreamFrameWire(x) + rest) == Ok((x, |StreamFrameWire(x)|))
  {
    hide U16, PutU16;
    var b, h := StreamFrameWire(x) + rest, |Header(x.addr)|;
    var n := h + |x.payload|;
    assert b[0] == PutU16(n)[0] && b[1] == PutU16(n)[1];
    assert b[2..2 + n] == Header(x.addr) + x.payload;
    ReadAddrHeader(x.addr, x.payload);
    assert b[2 + h..2 + n] == x.payload;
  }

  lemma StreamFrameSound(b: bytes)
    requires DecodeStreamFrame(b).Ok?
    ensures var (x, n) := DecodeStreamFrame(b).value;
            StreamFrameOk(x) && n == |StreamFrameWire(x)| && b[..n] == StreamFrameWire(x)
  {
    hide U16, PutU16;
    var n := Announced(b);
    var body := b[2..2 + n];
    ReadAddrSound(body);
    var k := ReadAddr(body).value.1;
    U16Unique(b[0], b[1]);
    assert b[..2 + n] == [b[0], b[1]] + body[..k] + b[2 + k..2 + n];
  }

  lemma StreamFramePrefix(x: StreamFrame, k: nat)
    requires StreamFrameOk(x) && k < |StreamFrameWire(x)|
    ensures DecodeStreamFrame(StreamFrameWire(x)[..k]) == Again
  {
    hide U16, PutU16;
    var w, n := StreamFrameWire(x), |Header(x.addr)| + |x.payload|;
    assert w[0] == PutU16(n)[0] && w[1] == PutU16(n)[1];
  }

  /** The announced length is too short for the address it must hold. */
  predicate TooShortForAddress(b: bytes) {
    |b| >= 2 && (Announced(b) < 4 || (|b| >= 4 && ValidAddr(b[2], b[3]) && Announced(b) < 4 + (b[3] as nat)))
  }

  /** "More" from the stream decoder is a promise it cannot keep exactly when the length is too short for the address:
      then no continuation ever gets another answer, and otherwise some continuation does. */
  lemma AgainForeverIffTooShort(b: bytes)
    requires DecodeStreamFrame(b) == Again
    ensures TooShortForAddress(b) <==> forall more: bytes :: DecodeStreamFrame(b + more) == Again
  {
    if TooShortForAddress(b) {
      forall more: bytes ensures DecodeStreamFrame(b + more) == Again { TooShortStays(b, more); }
    } else {
      SomeAnswer(b);
    }
  }

  lemma TooShortStays(b: bytes, more: bytes)
    requires TooShortForAddress(b)
    ensures DecodeStreamFrame(b + more) == Again
  {
    hide U16, PutU16;
    var c, n := b + more, Announced(b);
    assert Announced(c) == n;
    if |c| >= 2 + n && n >= 4 {
      assert c[2..2 + n][0] == b[2] && c[2..2 + n][1] == b[3];
    }
  }

  lemma SomeAnswer(b: bytes)
    requires DecodeStreamFrame(b) == Again && !TooShortForAddress(b)
    ensures exists more: bytes :: DecodeStreamFrame(b + more) != Again
  {
    if |b| < 2 {
      SomeFill(b, if |b| == 0 then [0, 4] else [4], 0);
    } else {
      SomeFill(b, [], 0);
    }
  }

  /** Zeros up to the announced length make an address of no known type, or complete one of a known type. */
  lemma SomeFill(b: bytes, start: bytes, z: byte)
    requires z == 0 && |b + start| >= 2 && !TooShortForAddress(b + start)
    ensures exists more: bytes :: DecodeStreamFrame(b + more) != Again
  {
    var c := b + start;
    var n := Announced(c);
    var fill := seq(if |c| < 2 + n then 2 + n - |c| else 0, _ => z);
    var d := c + fill;
    assert d == b + (start + fill);
    assert Announced(d) == n && |d| >= 2 + n >= 6;
    var body := d[2..2 + n];
    assert body[0] == d[2] && body[1] == d[3];
    if ValidAddr(d[2], d[3]) {
      FilledAddress(c, d);
    }
    assert ReadAddr(body) != Again;
    assert DecodeStreamFrame(b + (start + fill)) != Again;
  }

  lemma FilledAddress(c: bytes, d: bytes)
    requires |c| >= 2 && c <= d && |d| >= 4 && !TooShortForAddress(c) && ValidAddr(d[2], d[3])
    requires forall i :: |c| <= i < |d| ==> d[i] == 0
    ensures |c| >= 4 && Announced(c) >= 4 + (d[3] as nat)
  {
    assert c[2] == d[2] && c[3] == d[3];
  }

  /** A complete frame of no octets reports that it wants more. */
  lemma EmptyFrameAsksForMore()
    ensures DecodeStreamFrame([0, 0]) == Again && TooShortForAddress([0, 0])
  {
  }
}
