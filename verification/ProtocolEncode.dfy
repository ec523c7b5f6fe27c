/** The encoders, writing into a caller's buffer: which inputs they refuse, when they lack room, and what they leave
    behind. */
module ProtocolEncode {
  import opened Address
  import opened Bytes
  import opened Protocol
  import opened KeyProtocol

  /** The buffer changed in [from, from + |s|) only, where s now stands. */
  twostate predicate Holds(dst: array<byte>, from: nat, s: bytes)
    reads dst
  {
    from + |s| <= dst.Length && dst[from..from + |s|] == s && Untouched(dst, from, from + |s|)
  }

  twostate predicate Untouched(dst: array<byte>, from: nat, to: nat)
    reads dst
  {
    forall i :: 0 <= i < dst.Length && !(from <= i < to) ==> dst[i] == old(dst[i])
  }

  /** Adds s at the cursor of a packet that began at `from`. */
  method Put(dst: array<byte>, from: nat, pos: nat, s: bytes) returns (next: nat)
    requires from <= pos && pos + |s| <= dst.Length
    modifies dst
    ensures next == pos + |s|
    ensures dst[from..next] == old(dst[from..pos]) + s && Untouched(dst, from, next)
  {
    ghost var was := dst[..];
    next := Write(dst, pos, s);
    forall i | 0 <= i < dst.Length && !(pos <= i < next) ensures dst[i] == was[i] {
      if i < pos { assert dst[i] == dst[..pos][i]; } else { assert dst[i] == dst[next..][i - next]; }
    }
    assert dst[from..next] == dst[from..pos] + dst[pos..next];
  }

  method WriteAddr(dst: array<byte>, from: nat, pos: nat, t: Target) returns (r: Result<nat>)
    requires from <= pos <= dst.Length && t.port < 0x1_0000
    modifies dst
    ensures r == Invalid <==> !WellFormed(t)
    ensures r == NoSpace <==> WellFormed(t) && dst.Length - pos < |Header(t)|
    ensures r.Ok? ==> r == Ok(|Header(t)|)
    ensures r.Ok? ==> dst[from..pos + r.value] == old(dst[from..pos]) + Header(t) && Untouched(dst, from, pos + r.value)
    ensures !r.Ok? ==> dst[..] == old(dst[..])
    ensures r != Again
  {
    hide PutU16;
    if !ValidAddr(t.kind, |t.host|) {
      return Invalid;
    }
    var need := 4 + |t.host|;
    if dst.Length - pos < need {
      return NoSpace;
    }
    ghost var before := dst[from..pos];
    var next := Put(dst, from, pos, [t.kind, |t.host|]);
    next := Put(dst, from, next, t.host);
    next := Put(dst, from, next, PutU16(t.port));
    assert before + [t.kind, |t.host|] + t.host + PutU16(t.port) == before + Header(t);
    r := Ok(need);
  }

  /** 0 stands for "not encodable", as the size functions report it. */
  function BootstrapSize(t: Target, payloadLen: nat): (n: nat)
    ensures t.port < 0x1_0000 ==> (n == 0 <==> !WellFormed(t) || payloadLen > PAYLOAD_MAX)
    ensures WellFormed(t) && payloadLen <= PAYLOAD_MAX ==> n == 2 + |Header(t)| + payloadLen
  {
    if !ValidAddr(t.kind, |t.host|) || payloadLen > PAYLOAD_MAX then 0 else 2 + 4 + |t.host| + payloadLen
  }

  method EncodeBootstrap(dst: array<byte>, from: nat, x: Bootstrap, keyed: bool) returns (r: Result<nat>)
    requires from <= dst.Length && x.addr.port < 0x1_0000
    modifies dst
    ensures r == Invalid <==> !BootstrapOk(x, keyed)
    ensures r == NoSpace <==> BootstrapOk(x, keyed) && dst.Length - from < |BootstrapWire(x)|
    ensures r.Ok? ==> r == Ok(|BootstrapWire(x)|) && Holds(dst, from, BootstrapWire(x))
    ensures !r.Ok? ==> dst[..] == old(dst[..])
    ensures r != Again
  {
    hide PutU16;
    if !ValidCmd(x.cmd) || !ValidProtection(x.protection, keyed) {
      return Invalid;
    }
    var need := BootstrapSize(x.addr, |x.payload|);
    if need == 0 {
      return Invalid;
    }
    if dst.Length - from < need {
      return NoSpace;
    }
    assert BootstrapWire(x) == [x.cmd, x.protection] + Header(x.addr) + x.payload;
    hide Header, BootstrapWire, WellFormed;
    var pos := Put(dst, from, from, [x.cmd, x.protection]);
    assert dst[from..pos] == [x.cmd, x.protection];
    var addr := WriteAddr(dst, from, pos, x.addr);
    pos := pos + addr.value;
    pos := Put(dst, from, pos, x.payload);
    assert dst[from..pos] == BootstrapWire(x);
    r := Ok(need);
  }

  method EncodeUdpInit(dst: array<byte>, x: UdpInit) returns (r: Result<nat>)
    requires |x.flowId| == FLOW_ID_LEN && x.addr.port < 0x1_0000
    modifies dst
    ensures r == Invalid <==> !UdpInitOk(x, false) || |x.payload| > PAYLOAD_MAX
    ensures r == NoSpace <==> UdpInitOk(x, false) && |x.payload| <= PAYLOAD_MAX && dst.Length < |UdpInitWire(x)|
    ensures r.Ok? ==> r == Ok(|UdpInitWire(x)|) && Holds(dst, 0, UdpInitWire(x))
    ensures r != Again
  {
    hide PutU16;
    if !ValidProtection(x.protection, false) || !FlowIdValid(x.flowId) {
      return Invalid;
    }
    if !ValidAddr(x.addr.kind, |x.addr.host|) || |x.payload| > PAYLOAD_MAX {
      return Invalid;
    }
    var need := 1 + FLOW_ID_LEN + 4 + |x.addr.host| + |x.payload|;
    if dst.Length < need {
      return NoSpace;
    }
    hide Header;
    var pos := Put(dst, 0, 0, [0x80 + x.protection]);
    pos := Put(dst, 0, pos, x.flowId);
    var addr := WriteAddr(dst, 0, pos, x.addr);
    pos := pos + addr.value;
    pos := Put(dst, 0, pos, x.payload);
    assert dst[0..pos] == [] + [0x80 + x.protection] + x.flowId + Header(x.addr) + x.payload == UdpInitWire(x);
    r := Ok(need);
  }

  method EncodeUdpData(dst: array<byte>, x: UdpData) returns (r: Result<nat>)
    requires |x.flowId| == FLOW_ID_LEN
    modifies dst
    ensures r == Invalid <==> !UdpDataOk(x)
    ensures r == NoSpace <==> UdpDataOk(x) && dst.Length < |UdpDataWire(x)|
    ensures r.Ok? ==> r == Ok(|UdpDataWire(x)|) && Holds(dst, 0, UdpDataWire(x))
    ensures r != Again
  {
    if !FlowIdValid(x.flowId) {
      return Invalid;
    }
    var need := FLOW_ID_LEN + |x.payload|;
    if dst.Length < need {
      return NoSpace;
    }
    var pos := Put(dst, 0, 0, x.flowId);
    pos := Put(dst, 0, pos, x.payload);
    assert dst[0..pos] == [] + x.flowId + x.payload == UdpDataWire(x);
    r := Ok(need);
  }

  method EncodeStreamFrame(dst: array<byte>, x: StreamFrame) returns (r: Result<nat>)
    requires x.addr.port < 0x1_0000
    modifies dst
    ensures r == Invalid <==> !StreamFrameOk(x)
    ensures r == NoSpace <==> StreamFrameOk(x) && dst.Length < |StreamFrameWire(x)|
    ensures r.Ok? ==> r == Ok(|StreamFrameWire(x)|) && Holds(dst, 0, StreamFrameWire(x))
    ensures r != Again
  {
    if !ValidAddr(x.addr.kind, |x.addr.host|) {
      return Invalid;
    }
    var frameLen := 4 + |x.addr.host| + |x.payload|;
    if frameLen > 0xffff {
      return Invalid;
    }
    if dst.Length < 2 + frameLen {
      return NoSpace;
    }
    assert |StreamFrameWire(x)| == 2 + frameLen && StreamFrameWire(x) == PutU16(frameLen) + Header(x.addr) + x.payload;
    hide Header, PutU16, StreamFrameWire, WellFormed;
    var pos := Put(dst, 0, 0, PutU16(frameLen));
    assert dst[0..pos] == PutU16(frameLen);
    var addr := WriteAddr(dst, 0, pos, x.addr);
    pos := pos + addr.value;
    pos := Put(dst, 0, pos, x.payload);
    assert dst[0..pos] == StreamFrameWire(x);
    r := Ok(2 + frameLen);
  }

  /** Seals a plaintext into the buffer behind `lead`; a failed seal leaves nothing of it behind. */
  method Seal(dst: array<byte>, c: Crypto, nonce: bytes, lead: bytes, plain: bytes) returns (ok: bool)
    requires Sized(c) && |lead| + |plain| + TAG_LEN <= dst.Length
    modifies dst
    ensures ok <==> c.seal(nonce, plain).Some?
    ensures ok ==> Holds(dst, 0, lead + c.seal(nonce, plain).value.0 + c.seal(nonce, plain).value.1)
    ensures !ok ==> forall i :: |lead| <= i < |lead| + |plain| + TAG_LEN ==> dst[i] == 0
  {
    var pos := Put(dst, 0, 0, lead);
    match c.seal(nonce, plain)
    case Some((text, tag)) =>
      pos := Put(dst, 0, pos, text);
      pos := Put(dst, 0, pos, tag);
      assert [] + lead + text + tag == lead + text + tag;
      ok := true;
    case None =>
      for i := pos to pos + |plain| + TAG_LEN
        invariant forall j :: pos <= j < i ==> dst[j] == 0
      {
        dst[i] := 0;
      }
      ok := false;
  }

  /** The plaintext of a key bootstrap, in a buffer of its own size. */
  method KeyPlaintext(x: KeyBootstrap, size: nat) returns (plain: array<byte>, encoded: Result<nat>)
    requires x.epoch < 0x1_0000_0000 && |x.nonce| == NONCE_LEN && x.body.addr.port < 0x1_0000
    requires size == BootstrapSize(x.body.addr, |x.body.payload|) > 0
    ensures fresh(plain) && encoded.Ok? == KeyBootstrapOk(x) && (!encoded.Ok? ==> encoded == Invalid)
    ensures encoded.Ok? ==> plain[..] == KeyPlain(x)
  {
    hide Header, PutU32, BootstrapWire;
    plain := new byte[EPOCH_LEN + size](_ => 0);
    var pos := Write(plain, 0, PutU32(x.epoch));
    encoded := EncodeBootstrap(plain, pos, x.body, true);
    if encoded.Ok? {
      forall i | 0 <= i < pos ensures plain[i] == PutU32(x.epoch)[i] {
      }
      assert plain[..] == plain[..pos] + plain[pos..pos + size];
    }
  }

  method EncodeKeyBootstrap(dst: array<byte>, c: Crypto, x: KeyBootstrap) returns (r: Result<nat>)
    requires Sized(c) && x.epoch < 0x1_0000_0000 && |x.nonce| == NONCE_LEN && x.body.addr.port < 0x1_0000
    modifies dst
    ensures r == NoSpace <==> KeyBootstrapOk(x) && dst.Length < RecordSize(|KeyPlain(x)|)
    ensures r.Ok? <==> KeyBootstrapOk(x) && dst.Length >= RecordSize(|KeyPlain(x)|) && KeyBootstrapWire(c, x).Some?
    ensures r.Ok? ==> r == Ok(|KeyBootstrapWire(c, x).value|) && Holds(dst, 0, KeyBootstrapWire(c, x).value)
    ensures r != Again
  {
    hide KeyPlain;
    if !ValidCmd(x.body.cmd) {
      return Invalid;
    }
    var size := BootstrapSize(x.body.addr, |x.body.payload|);
    if size == 0 {
      return Invalid;
    }
    var plain, encoded := KeyPlaintext(x, size);
    if !encoded.Ok? {
      return encoded;
    }
    var need := RecordSize(plain.Length);
    if dst.Length < need {
      return NoSpace;
    }
    var ok := Seal(dst, c, x.nonce, x.nonce + PutU16(plain.Length), plain[..]);
    r := if ok then Ok(need) else Invalid;
  }

  /** The plaintext of a key UDP init, in a buffer of its own size. */
  method KeyUdpPlaintext(x: KeyUdpInit) returns (plain: array<byte>)
    requires KeyUdpInitOk(x)
    ensures fresh(plain) && plain[..] == KeyUdpPlain(x)
  {
    hide Header, PutU32;
    plain := new byte[EPOCH_LEN + 1 + FLOW_ID_LEN + 4 + |x.body.addr.host| + |x.body.payload|](_ => 0);
    var pos := Put(plain, 0, 0, PutU32(x.epoch));
    pos := Put(plain, 0, pos, [x.body.protection]);
    pos := Put(plain, 0, pos, x.body.flowId);
    var addr := WriteAddr(plain, 0, pos, x.body.addr);
    pos := pos + addr.value;
    pos := Put(plain, 0, pos, x.body.payload);
    assert plain[..] == plain[0..pos] ==
           [] + PutU32(x.epoch) + [x.body.protection] + x.body.flowId + Header(x.body.addr) + x.body.payload;
  }

  method EncodeKeyUdpInit(dst: array<byte>, c: Crypto, x: KeyUdpInit) returns (r: Result<nat>)
    requires Sized(c) && x.epoch < 0x1_0000_0000 && |x.nonce| == NONCE_LEN && |x.body.flowId| == FLOW_ID_LEN
    requires x.body.addr.port < 0x1_0000
    modifies dst
    ensures r == NoSpace <==>
              KeyUdpInitOk(x) && |KeyUdpPlain(x)| <= PLAIN_MAX && dst.Length < NONCE_LEN + |KeyUdpPlain(x)| + TAG_LEN
    ensures r.Ok? <==> KeyUdpInitOk(x) && |KeyUdpPlain(x)| <= PLAIN_MAX
                       && dst.Length >= NONCE_LEN + |KeyUdpPlain(x)| + TAG_LEN && KeyUdpInitWire(c, x).Some?
    ensures r.Ok? ==> r == Ok(|KeyUdpInitWire(c, x).value|) && Holds(dst, 0, KeyUdpInitWire(c, x).value)
    ensures r != Again
  {
    if !ValidProtection(x.body.protection, true) || !FlowIdValid(x.body.flowId) {
      return Invalid;
    }
    if !ValidAddr(x.body.addr.kind, |x.body.addr.host|) {
      return Invalid;
    }
    var plain := KeyUdpPlaintext(x);
    var size := plain.Length;
    if size > PLAIN_MAX {
      return Invalid;
    }
    if dst.Length < NONCE_LEN + size + TAG_LEN {
      return NoSpace;
    }
    var nonce := NoncePrepared(x.nonce);
    var ok := Seal(dst, c, nonce, nonce, plain[..]);
    r := if ok then Ok(NONCE_LEN + size + TAG_LEN) else Invalid;
  }
}
