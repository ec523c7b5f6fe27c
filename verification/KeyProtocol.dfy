/** Key-protected framing over any authenticated cipher: what is sealed is what is opened, no matter what follows. */
module KeyProtocol {
  import opened Address
  import opened Bytes
  import opened Protocol

  const EPOCH_LEN := 4

  /** The cipher: seal gives ciphertext and tag, open gives the plaintext back. Either may fail. */
  datatype Crypto = Crypto(seal: (bytes, bytes) -> Option<(bytes, bytes)>, open: (bytes, bytes, bytes) -> Option<bytes>)

  /** Sizes as the interface fixes them: the ciphertext is as long as the plaintext, the tag 16 octets. */
  ghost predicate Sized(c: Crypto) {
    && (forall n, p :: c.seal(n, p).Some? ==> |c.seal(n, p).value.0| == |p| && |c.seal(n, p).value.1| == TAG_LEN)
    && (forall n, t, g :: c.open(n, t, g).Some? ==> |c.open(n, t, g).value| == |t|)
  }

  /** Opening inverts sealing. */
  ghost predicate Inverts(c: Crypto) {
    Sized(c) && forall n, p :: c.seal(n, p).Some? ==> c.open(n, c.seal(n, p).value.0, c.seal(n, p).value.1) == Some(p)
  }

  // ----- datagrams: nonce, ciphertext, tag

  /** At most one tag opens a ciphertext under a nonce. */
  ghost predicate UniqueTags(c: Crypto) {
    forall nonce, text, x, y :: c.open(nonce, text, x).Some? && c.open(nonce, text, y).Some? ==> x == y
  }

  function Protected(c: Crypto, nonce: bytes, plain: bytes): Option<bytes> {
    match c.seal(nonce, plain)
    case Some((text, tag)) => Some(nonce + text + tag)
    case None => None
  }

  /** The room for the plaintext is the caller's buffer. */
  function Unprotect(c: Crypto, b: bytes, room: nat): Result<(bytes, bytes)> {
    if |b| < NONCE_LEN + TAG_LEN then Again
    else
      var n := |b| - NONCE_LEN - TAG_LEN;
      if n > PLAIN_MAX then Invalid
      else if n > room then NoSpace
      else
        match c.open(b[..NONCE_LEN], b[NONCE_LEN..NONCE_LEN + n], b[NONCE_LEN + n..])
        case Some(plain) => Ok((b[..NONCE_LEN], plain))
        case None => Invalid
  }

  lemma UnprotectProtected(c: Crypto, nonce: bytes, plain: bytes, room: nat)
    requires Inverts(c) && |nonce| == NONCE_LEN && |plain| <= PLAIN_MAX && |plain| <= room
    requires Protected(c, nonce, plain).Some?
    ensures Unprotect(c, Protected(c, nonce, plain).value, room) == Ok((nonce, plain))
    ensures |Protected(c, nonce, plain).value| == NONCE_LEN + |plain| + TAG_LEN
  {
    var b := Protected(c, nonce, plain).value;
    var (text, tag) := c.seal(nonce, plain).value;
    assert b[..NONCE_LEN] == nonce && b[NONCE_LEN..NONCE_LEN + |plain|] == text && b[NONCE_LEN + |plain|..] == tag;
  }

  // ----- records in a stream: nonce, length, ciphertext, tag

  function Record(c: Crypto, nonce: bytes, plain: bytes): Option<bytes>
    requires |plain| < 0x1_0000
  {
    match c.seal(nonce, plain)
    case Some((text, tag)) => Some(nonce + PutU16(|plain|) + text + tag)
    case None => None
  }

  /** The length the record announces, and its whole size. */
  function RecordLength(b: bytes): nat
    requires |b| >= NONCE_LEN + 2
  {
    U16(b[NONCE_LEN], b[NONCE_LEN + 1])
  }

  function RecordSize(n: nat): nat { NONCE_LEN + 2 + n + TAG_LEN }

  /** Nonce, plaintext, octets consumed. */
  function OpenRecord(c: Crypto, b: bytes, room: nat): (r: Result<(bytes, bytes, nat)>)
    ensures r.Ok? ==> r.value.2 <= |b|
  {
    if |b| < NONCE_LEN + 2 then Again
    else
      var n := RecordLength(b);
      if n > PLAIN_MAX then Invalid
      else if |b| < RecordSize(n) then Again
      else if n > room then NoSpace
      else
        match c.open(b[..NONCE_LEN], b[14..14 + n], b[14 + n..RecordSize(n)])
        case Some(plain) => Ok((b[..NONCE_LEN], plain, RecordSize(n)))
        case None => Invalid
  }

  lemma OpenRecordSealed(c: Crypto, nonce: bytes, plain: bytes, rest: bytes, room: nat)
    requires Inverts(c) && |nonce| == NONCE_LEN && |plain| <= PLAIN_MAX && |plain| <= room
    requires Record(c, nonce, plain).Some?
    ensures OpenRecord(c, Record(c, nonce, plain).value + rest, room) == Ok((nonce, plain, RecordSize(|plain|)))
    ensures |Record(c, nonce, plain).value| == RecordSize(|plain|)
  {
    hide U16, PutU16, U32, PutU32;
    var w, n := Record(c, nonce, plain).value, |plain|;
    var (text, tag) := c.seal(nonce, plain).value;
    var b := w + rest;
    assert b[..NONCE_LEN] == nonce;
    assert b[12] == PutU16(n)[0] && b[13] == PutU16(n)[1];
    assert b[14..14 + n] == text;
    assert b[14 + n..RecordSize(n)] == tag;
  }

  /** Every strict prefix of a record asks for more. */
  lemma OpenRecordPrefix(c: Crypto, nonce: bytes, plain: bytes, k: nat, room: nat)
    requires Sized(c) && |nonce| == NONCE_LEN && |plain| <= PLAIN_MAX && Record(c, nonce, plain).Some?
    requires k < |Record(c, nonce, plain).value|
    ensures OpenRecord(c, Record(c, nonce, plain).value[..k], room) == Again
  {
    hide U16, PutU16, U32, PutU32;
    var w, n := Record(c, nonce, plain).value, |plain|;
    if k >= 14 {
      assert w[..k][12] == PutU16(n)[0] && w[..k][13] == PutU16(n)[1];
    }
  }

  /** A record that is complete is judged by its own octets alone. */
  lemma OpenRecordStable(c: Crypto, b: bytes, more: bytes, room: nat)
    requires OpenRecord(c, b, room) != Again
    ensures OpenRecord(c, b + more, room) == OpenRecord(c, b, room)
  {
    assert RecordLength(b + more) == RecordLength(b);
    var n := RecordLength(b);
    if n <= PLAIN_MAX {
      assert (b + more)[..NONCE_LEN] == b[..NONCE_LEN] && (b + more)[14..14 + n] == b[14..14 + n];
      assert (b + more)[14 + n..RecordSize(n)] == b[14 + n..RecordSize(n)];
    }
  }

  // ----- the key TCP bootstrap

  datatype KeyBootstrap = KeyBootstrap(epoch: nat, nonce: bytes, body: Bootstrap)

  predicate KeyBootstrapOk(x: KeyBootstrap) {
    x.epoch < 0x1_0000_0000 && |x.nonce| == NONCE_LEN && BootstrapOk(x.body, true)
  }

  function KeyPlain(x: KeyBootstrap): (s: bytes)
    requires KeyBootstrapOk(x)
    ensures |s| == EPOCH_LEN + |BootstrapWire(x.body)| <= PLAIN_MAX
  {
    PutU32(x.epoch) + BootstrapWire(x.body)
  }

  function KeyBootstrapWire(c: Crypto, x: KeyBootstrap): Option<bytes>
    requires KeyBootstrapOk(x)
  {
    Record(c, x.nonce, KeyPlain(x))
  }

  function DecodeKeyBootstrap(c: Crypto, b: bytes, room: nat): (r: Result<(KeyBootstrap, nat)>)
    ensures r.Ok? ==> r.value.1 <= |b|
  {
    match OpenRecord(c, b, room)
    case Ok((nonce, plain, n)) => (
      if |plain| < EPOCH_LEN + 6 then Invalid
      else
        match DecodeBootstrap(plain[EPOCH_LEN..], true)
        case Ok((body, _)) => Ok((KeyBootstrap(U32(plain[..EPOCH_LEN]), nonce, body), n))
        case Invalid => Invalid
        case Again => Again
        case NoSpace => NoSpace)
    case Invalid => Invalid
    case Again => Again
    case NoSpace => NoSpace
  }

  /** Whatever trails it, a sealed bootstrap decodes to every field and consumes exactly its own octets. */
  lemma KeyBootstrapRoundTrip(c: Crypto, x: KeyBootstrap, rest: bytes, room: nat)
    requires Inverts(c) && KeyBootstrapOk(x) && KeyBootstrapWire(c, x).Some? && |KeyPlain(x)| <= room
    ensures var w := KeyBootstrapWire(c, x).value;
            DecodeKeyBootstrap(c, w + rest, room) == Ok((x, |w|)) && |w| == RecordSize(|KeyPlain(x)|)
  {
    hide U16, PutU16, U32, PutU32;
    var plain := KeyPlain(x);
    OpenRecordSealed(c, x.nonce, plain, rest, room);
    assert plain[..EPOCH_LEN] == PutU32(x.epoch) && plain[EPOCH_LEN..] == BootstrapWire(x.body);
    BootstrapRoundTrip(x.body, true);
  }

  /** Every strict prefix of it asks for more. */
  lemma KeyBootstrapPrefix(c: Crypto, x: KeyBootstrap, k: nat, room: nat)
    requires Sized(c) && KeyBootstrapOk(x) && KeyBootstrapWire(c, x).Some? && k < |KeyBootstrapWire(c, x).value|
    ensures DecodeKeyBootstrap(c, KeyBootstrapWire(c, x).value[..k], room) == Again
  {
    OpenRecordPrefix(c, x.nonce, KeyPlain(x), k, room);
  }

  /** A complete record always gets the same answer, also when that answer is "more". */
  lemma KeyBootstrapStable(c: Crypto, b: bytes, more: bytes, room: nat)
    requires |b| >= 14 && (RecordLength(b) > PLAIN_MAX || |b| >= RecordSize(RecordLength(b)))
    ensures DecodeKeyBootstrap(c, b + more, room) == DecodeKeyBootstrap(c, b, room)
  {
    OpenRecordStable(c, b, more, room);
  }

  /** The record has arrived as far as its length announces. */
  predicate Complete(b: bytes) { |b| >= NONCE_LEN + 2 && |b| >= RecordSize(RecordLength(b)) }

  /** The plaintext of a bootstrap names an address of a known type and ends before the address does. */
  predicate EndsInAddress(plain: bytes, at: nat) {
    |plain| >= at + 4 && ValidAddr(plain[at], plain[at + 1]) && |plain| < at + 4 + (plain[at + 1] as nat)
  }

  predicate ShortBootstrap(plain: bytes) {
    EndsInAddress(plain, EPOCH_LEN + 2) && ValidCmd(plain[EPOCH_LEN]) && ValidProtection(plain[EPOCH_LEN + 1], true)
  }

  /** When a complete record asks for more: it opens, and its plaintext ends within the address. */
  lemma CompleteAsksForMoreIff(c: Crypto, b: bytes, room: nat)
    requires Complete(b)
    ensures DecodeKeyBootstrap(c, b, room) == Again <==>
              OpenRecord(c, b, room).Ok? && ShortBootstrap(OpenRecord(c, b, room).value.1)
  {
    if OpenRecord(c, b, room).Ok? {
      var plain := OpenRecord(c, b, room).value.1;
      if |plain| >= EPOCH_LEN + 6 {
        var p := plain[EPOCH_LEN..];
        assert p[2..][0] == plain[EPOCH_LEN + 2] && p[2..][1] == plain[EPOCH_LEN + 3];
      }
    }
  }

  /** "More" is answered for ever, with any continuation, exactly when the record is already complete; otherwise some
      continuation gets another answer, because at most one tag opens it. */
  lemma AgainForeverIffComplete(c: Crypto, b: bytes, room: nat)
    requires UniqueTags(c) && DecodeKeyBootstrap(c, b, room) == Again
    ensures Complete(b) <==> forall more: bytes :: DecodeKeyBootstrap(c, b + more, room) == Again
  {
    if Complete(b) {
      forall more: bytes ensures DecodeKeyBootstrap(c, b + more, room) == Again {
        KeyBootstrapStable(c, b, more, room);
      }
    } else {
      SomeRefusal(c, b, room);
    }
  }

  /** Fills the record up to its last octet, and tries two values for that one. */
  lemma SomeRefusal(c: Crypto, b: bytes, room: nat)
    requires UniqueTags(c) && !Complete(b)
    ensures exists more: bytes :: DecodeKeyBootstrap(c, b + more, room) != Again
  {
    var zeros := Fill(NONCE_LEN + 2 - |b|);
    var start := b + zeros;
    var n := RecordLength(start);
    if n > PLAIN_MAX {
      assert DecodeKeyBootstrap(c, b + zeros, room) == Invalid;
    } else {
      var rest := Fill(RecordSize(n) - 1 - |start|);
      var almost := start + rest;
      assert RecordLength(almost) == n && |almost| == RecordSize(n) - 1;
      LastOctets(c, almost, n, room);
      var last :| last in {0, 1} && DecodeKeyBootstrap(c, almost + [last], room) != Again;
      assert almost + [last] == b + (zeros + rest + [last]);
    }
  }

  function Fill(n: int): (z: bytes)
    ensures |z| == if n < 0 then 0 else n
  {
    seq(if n < 0 then 0 else n, _ => 0)
  }

  lemma LastOctets(c: Crypto, almost: bytes, n: nat, room: nat)
    requires UniqueTags(c) && n <= PLAIN_MAX && |almost| == RecordSize(n) - 1 && RecordLength(almost) == n
    ensures exists last: byte :: last in {0, 1} && DecodeKeyBootstrap(c, almost + [last], room) != Again
  {
    var x, y := almost + [0], almost + [1];
    assert x[..NONCE_LEN] == y[..NONCE_LEN] && x[14..14 + n] == y[14..14 + n];
    assert x[14 + n..RecordSize(n)][15] == 0 && y[14 + n..RecordSize(n)][15] == 1;
    assert RecordLength(x) == RecordLength(y) == n;
    assert OpenRecord(c, x, room) in {Invalid, NoSpace} || OpenRecord(c, y, room) in {Invalid, NoSpace};
    var zero: byte, one: byte := 0, 1;
    assert DecodeKeyBootstrap(c, almost + [zero], room) != Again
           || DecodeKeyBootstrap(c, almost + [one], room) != Again;
  }

  /** Epoch 0, CONNECT, and a name of nine octets of which two are there. */
  const SHORT: bytes := [0, 0, 0, 0, CONNECT, 0, DOMAIN, 9, 0, 0]

  /** Sealed by any cipher, such a bootstrap is a complete record that asks for more for ever. */
  lemma ShortRecordAsksForMore(c: Crypto, nonce: bytes, more: bytes, room: nat)
    requires Inverts(c) && |nonce| == NONCE_LEN && Record(c, nonce, SHORT).Some? && |SHORT| <= room
    ensures Complete(Record(c, nonce, SHORT).value)
    ensures DecodeKeyBootstrap(c, Record(c, nonce, SHORT).value + more, room) == Again
  {
    var w := Record(c, nonce, SHORT).value;
    OpenRecordSealed(c, nonce, SHORT, more, room);
    assert w[NONCE_LEN] == PutU16(|SHORT|)[0] && w[NONCE_LEN + 1] == PutU16(|SHORT|)[1];
    assert Complete(w + more);
    CompleteAsksForMoreIff(c, w + more, room);
  }

  /** What decodes is what the cipher opened under the record's own nonce: exactly that epoch and that bootstrap. */
  lemma KeyBootstrapSound(c: Crypto, b: bytes, room: nat)
    requires Sized(c) && DecodeKeyBootstrap(c, b, room).Ok?
    ensures var (x, n) := DecodeKeyBootstrap(c, b, room).value;
            && x.nonce == b[..NONCE_LEN] && n == RecordSize(RecordLength(b)) <= |b|
            && WellFormed(x.body.addr) && ValidCmd(x.body.cmd) && ValidProtection(x.body.protection, true)
            && var plain := c.open(b[..NONCE_LEN], b[14..n - TAG_LEN], b[n - TAG_LEN..n]);
            && plain.Some? && |plain.value| >= EPOCH_LEN
            && U32(plain.value[..EPOCH_LEN]) == x.epoch && plain.value[EPOCH_LEN..] == BootstrapWire(x.body)
  {
    hide U16, U32;
    var (nonce, plain, n) := OpenRecord(c, b, room).value;
    BootstrapSound(plain[EPOCH_LEN..], true);
  }

  // ----- the key UDP init

  datatype KeyUdpInit = KeyUdpInit(epoch: nat, nonce: bytes, body: UdpInit)

  predicate KeyUdpInitOk(x: KeyUdpInit) {
    x.epoch < 0x1_0000_0000 && |x.nonce| == NONCE_LEN && UdpInitOk(x.body, true)
  }

  function KeyUdpPlain(x: KeyUdpInit): (s: bytes)
    requires KeyUdpInitOk(x)
    ensures |s| == EPOCH_LEN + 1 + FLOW_ID_LEN + |Header(x.body.addr)| + |x.body.payload|
  {
    PutU32(x.epoch) + [x.body.protection] + x.body.flowId + Header(x.body.addr) + x.body.payload
  }

  /** The nonce goes out with its first octet marked as an init packet. */
  function KeyUdpInitWire(c: Crypto, x: KeyUdpInit): Option<bytes>
    requires KeyUdpInitOk(x)
  {
    Protected(c, NoncePrepared(x.nonce), KeyUdpPlain(x))
  }

  function DecodeKeyUdpInit(c: Crypto, b: bytes, room: nat): Result<(KeyUdpInit, nat)> {
    if |b| < NONCE_LEN + TAG_LEN then Again
    else if PacketClass(b) != InitClass then Invalid
    else
      match Unprotect(c, b, room)
      case Ok((nonce, plain)) => (
        if |plain| < EPOCH_LEN + 1 + FLOW_ID_LEN + 4 then Invalid
        else if !ValidProtection(plain[4], true) || !FlowIdValid(plain[5..13]) then Invalid
        else
          match ReadAddr(plain[13..])
          case Ok((t, k)) => Ok((KeyUdpInit(U32(plain[..4]), nonce,
            UdpInit(plain[4], plain[5..13], t, plain[13 + k..])), |b|))
          case Invalid => Invalid
          case Again => Again
          case NoSpace => NoSpace)
      case Invalid => Invalid
      case Again => Again
      case NoSpace => NoSpace
  }

  /** A sealed init decodes to its fields, with the nonce it was sent under. */
  lemma KeyUdpInitRoundTrip(c: Crypto, x: KeyUdpInit, room: nat)
    requires Inverts(c) && KeyUdpInitOk(x) && |KeyUdpPlain(x)| <= PLAIN_MAX && |KeyUdpPlain(x)| <= room
    requires KeyUdpInitWire(c, x).Some?
    ensures var w := KeyUdpInitWire(c, x).value;
            DecodeKeyUdpInit(c, w, room) == Ok((KeyUdpInit(x.epoch, NoncePrepared(x.nonce), x.body), |w|))
  {
    hide U16, PutU16, U32, PutU32;
    var plain := KeyUdpPlain(x);
    UnprotectProtected(c, NoncePrepared(x.nonce), plain, room);
    KeyUdpParts(x);
    ReadAddrHeader(x.body.addr, x.body.payload);
  }

  lemma KeyUdpParts(x: KeyUdpInit)
    requires KeyUdpInitOk(x)
    ensures var plain, h := KeyUdpPlain(x), |Header(x.body.addr)|;
            && plain[..4] == PutU32(x.epoch) && plain[4] == x.body.protection && plain[5..13] == x.body.flowId
            && plain[13..] == Header(x.body.addr) + x.body.payload && plain[13 + h..] == x.body.payload
  {
    hide U16, PutU16, U32, PutU32;
    var plain, h := KeyUdpPlain(x), |Header(x.body.addr)|;
    assert plain[13..] == Header(x.body.addr) + x.body.payload;
    assert plain[13 + h..] == plain[13..][h..];
  }

  /** What decodes is what the cipher opened under the datagram's own nonce: exactly that epoch and that init. */
  lemma KeyUdpInitSound(c: Crypto, b: bytes, room: nat)
    requires Sized(c) && DecodeKeyUdpInit(c, b, room).Ok?
    ensures var (x, n) := DecodeKeyUdpInit(c, b, room).value;
            && x.nonce == b[..NONCE_LEN] && PacketClass(b) == InitClass && n == |b| >= NONCE_LEN + TAG_LEN
            && UdpInitOk(x.body, true)
            && var plain := c.open(b[..NONCE_LEN], b[NONCE_LEN..n - TAG_LEN], b[n - TAG_LEN..]);
            && plain.Some? && |plain.value| >= EPOCH_LEN && U32(plain.value[..EPOCH_LEN]) == x.epoch
            && plain.value[EPOCH_LEN..] ==
               [x.body.protection] + x.body.flowId + Header(x.body.addr) + x.body.payload
  {
    hide U16, PutU16, U32, PutU32;
    var plain := Unprotect(c, b, room).value.1;
    ReadAddrSound(plain[13..]);
    var k := ReadAddr(plain[13..]).value.1;
    assert plain[4..] == [plain[4]] + plain[5..13] + plain[13..][..k] + plain[13 + k..];
  }

  /** It is never taken for a data packet, and a data packet never for it. */
  lemma KeyUdpInitIsNoData(c: Crypto, x: KeyUdpInit, d: UdpData, room: nat)
    requires KeyUdpInitOk(x) && KeyUdpInitWire(c, x).Some? && UdpDataOk(d)
    ensures DecodeUdpData(KeyUdpInitWire(c, x).value) == Invalid
    ensures !DecodeKeyUdpInit(c, UdpDataWire(d), room).Ok?
  {
    var w, n := KeyUdpInitWire(c, x).value, NoncePrepared(x.nonce);
    assert w[0] == n[0];
    assert UdpDataWire(d)[0] == d.flowId[0];
  }

  predicate ShortUdpInit(plain: bytes) {
    && EndsInAddress(plain, EPOCH_LEN + 1 + FLOW_ID_LEN)
    && ValidProtection(plain[EPOCH_LEN], true) && FlowIdValid(plain[EPOCH_LEN + 1..EPOCH_LEN + 1 + FLOW_ID_LEN])
  }

  /** A datagram is all there will be of it; it still asks for more exactly when it is too short for nonce and tag, or
      opens to a plaintext that ends within its address. */
  lemma UdpInitAsksForMoreIff(c: Crypto, b: bytes, room: nat)
    ensures DecodeKeyUdpInit(c, b, room) == Again <==>
              || |b| < NONCE_LEN + TAG_LEN
              || (PacketClass(b) == InitClass && Unprotect(c, b, room).Ok?
                 && ShortUdpInit(Unprotect(c, b, room).value.1))
  {
    if |b| >= NONCE_LEN + TAG_LEN && Unprotect(c, b, room).Ok? {
      var plain := Unprotect(c, b, room).value.1;
      if |plain| >= 17 {
        assert plain[13..][0] == plain[13] && plain[13..][1] == plain[14];
      }
    }
  }

  /** Epoch 0, no protection, flow 0, and a name of nine octets of which two are there. */
  const SHORT_INIT: bytes := [0, 0, 0, 0, 0, 0, 0, 0, 0, 0, 0, 0, 0, DOMAIN, 9, 0, 0]

  lemma ShortInitAsksForMore(c: Crypto, nonce: bytes, room: nat)
    requires Inverts(c) && |nonce| == NONCE_LEN && PacketClass(nonce) == InitClass && |SHORT_INIT| <= room
    requires Protected(c, nonce, SHORT_INIT).Some?
    ensures DecodeKeyUdpInit(c, Protected(c, nonce, SHORT_INIT).value, room) == Again
  {
    UnprotectProtected(c, nonce, SHORT_INIT, room);
    UdpInitAsksForMoreIff(c, Protected(c, nonce, SHORT_INIT).value, room);
  }
}
