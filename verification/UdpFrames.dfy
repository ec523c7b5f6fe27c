/** Trojan UDP frames: packing, parsing, and the reassembly of a received stream. */
module UdpFrames {
  import opened Address
  import opened Bytes
  import opened Relay

  datatype Frame = Frame(addr: Target, payload: bytes)

  predicate FrameOk(f: Frame) { WellFormed(f.addr) && |f.payload| < 0x1_0000 }

  function FrameWire(f: Frame): (s: bytes)
    requires FrameOk(f)
    ensures 0 < |s| <= 65535 + MAX_WIRE + 4
  {
    Wire(f.addr) + PutU16(|f.payload|) + [CR, LF] + f.payload
  }

  function ParseFrame(b: bytes): (r: Option<(Frame, nat)>)
    ensures r.Some? ==> 0 < r.value.1 <= |b|
  {
    var a := Parse(b);
    if a.None? then None
    else
      var pos := a.value.1;
      if |b| < pos + 4 then None
      else
        var n := U16(b[pos], b[pos + 1]);
        if b[pos + 2] != CR || b[pos + 3] != LF || |b| < pos + 4 + n then None
        else Some((Frame(a.value.0, b[pos + 4..pos + 4 + n]), pos + 4 + n))
  }

  /** A parsed frame is a frame of the wire, and stands there octet for octet. */
  lemma ParseFrameSound(b: bytes)
    requires ParseFrame(b).Some?
    ensures var (f, n) := ParseFrame(b).value;
            FrameOk(f) && n == |FrameWire(f)| && b[..n] == FrameWire(f)
  {
    hide U16, PutU16;
    ParseSound(b);
    var (f, n) := ParseFrame(b).value;
    var pos := Parse(b).value.1;
    U16Unique(b[pos], b[pos + 1]);
    assert b[..n] == b[..pos] + [b[pos], b[pos + 1]] + [b[pos + 2], b[pos + 3]] + b[pos + 4..n];
  }

  /** Every frame is parsed back from its wire form, whatever follows. */
  lemma ParseFrameWire(f: Frame, rest: bytes)
    requires FrameOk(f)
    ensures ParseFrame(FrameWire(f) + rest) == Some((f, |FrameWire(f)|))
  {
    hide U16, PutU16;
    var b, pos := FrameWire(f) + rest, |Wire(f.addr)|;
    var tail := PutU16(|f.payload|) + [CR, LF] + f.payload + rest;
    assert b == Wire(f.addr) + tail;
    ParseWire(f.addr, tail);
    assert b[pos..] == tail;
    assert b[pos] == tail[0] && b[pos + 1] == tail[1] && b[pos + 2] == tail[2] && b[pos + 3] == tail[3];
    assert b[pos + 4..pos + 4 + |f.payload|] == f.payload;
  }

  /** Exactly the buffers that begin with a whole frame parse. */
  lemma ParsesIffFrame(b: bytes)
    ensures ParseFrame(b).Some? <==> exists f :: FrameOk(f) && FrameWire(f) <= b
  {
    hide U16, PutU16;
    if ParseFrame(b).Some? { ParseFrameSound(b); }
    if f :| FrameOk(f) && FrameWire(f) <= b {
      assert b == FrameWire(f) + b[|FrameWire(f)|..];
      ParseFrameWire(f, b[|FrameWire(f)|..]);
    }
  }

  // ----- packing

  /** What the packer puts together, whether or not the host fits the type. */
  function Packed(addr: Target, payload: bytes): (s: bytes)
    requires |addr.host| <= 255 && addr.port < 0x1_0000 && |payload| < 0x1_0000
    ensures FrameOk(Frame(addr, payload)) ==> s == FrameWire(Frame(addr, payload))
  {
    Wire(addr) + PutU16(|payload|) + [CR, LF] + payload
  }

  /** The packer: no space, or no wire form for the type, and nothing is reported as written. A host of the right length
      for its type gives a frame; any other is packed as it stands. */
  method PackUdpFrame(addr: Target, payload: bytes, out: array<byte>) returns (written: Option<nat>)
    requires |addr.host| <= 255 && addr.port < 0x1_0000 && |payload| < 0x1_0000
    modifies out
    ensures written.Some? <==>
              (addr.kind == 1 || addr.kind == 3 || addr.kind == 4) && |Packed(addr, payload)| <= out.Length
    ensures written.Some? ==> written.value == |Packed(addr, payload)| && out[..written.value] == Packed(addr, payload)
    ensures written.Some? && FrameOk(Frame(addr, payload)) ==> out[..written.value] == FrameWire(Frame(addr, payload))
  {
    hide U16, PutU16;
    if out.Length < |Wire(addr)| + 4 + |payload| {
      return None;
    }
    var pos := 1;
    out[0] := addr.kind;
    if addr.kind == DOMAIN {
      out[1] := |addr.host|;
      pos := 2;
    } else if addr.kind != IPV4 && addr.kind != IPV6 {
      return None;
    }
    assert out[..pos] == Lead(addr);
    pos := Write(out, pos, addr.host);
    pos := Write(out, pos, PutU16(addr.port));
    pos := Write(out, pos, PutU16(|payload|));
    pos := Write(out, pos, [CR, LF]);
    pos := Write(out, pos, payload);
    return Some(pos);
  }

  // ----- streams of frames

  predicate AllOk(fs: seq<Frame>) { forall i :: 0 <= i < |fs| ==> FrameOk(fs[i]) }

  function Stream(fs: seq<Frame>): bytes
    requires AllOk(fs)
  {
    if fs == [] then [] else FrameWire(fs[0]) + Stream(fs[1..])
  }

  lemma {:induction false} StreamSnoc(fs: seq<Frame>, f: Frame)
    requires AllOk(fs) && FrameOk(f)
    ensures Stream(fs + [f]) == Stream(fs) + FrameWire(f)
  {
    if fs == [] {
      assert [f][1..] == [] && Stream([f]) == FrameWire(f) + [];
    } else {
      assert (fs + [f])[1..] == fs[1..] + [f];
      StreamSnoc(fs[1..], f);
      assert FrameWire(fs[0]) + (Stream(fs[1..]) + FrameWire(f)) == (FrameWire(fs[0]) + Stream(fs[1..])) + FrameWire(f);
    }
  }

  /** Parsing reads the first frame of a stream, however much of the rest has arrived. */
  lemma FirstOfStream(fs: seq<Frame>, b: bytes)
    requires AllOk(fs) && fs != [] && b <= Stream(fs)
    ensures |b| >= |FrameWire(fs[0])| ==> ParseFrame(b) == Some((fs[0], |FrameWire(fs[0])|))
    ensures |b| < |FrameWire(fs[0])| ==> ParseFrame(b).None?
  {
    var n := |FrameWire(fs[0])|;
    if |b| >= n {
      assert b == FrameWire(fs[0]) + b[n..];
      ParseFrameWire(fs[0], b[n..]);
    } else if ParseFrame(b).Some? {
      ParseFrameSound(b);
      var (f, k) := ParseFrame(b).value;
      var s := Stream(fs);
      assert s == FrameWire(f) + s[k..];
      ParseFrameWire(f, s[k..]);
      ParseFrameWire(fs[0], Stream(fs[1..]));
    }
  }

  /** What was delivered, with an unparsed rest behind it, against the frames that were sent: the delivered frames
      are the first of them, and the rest is what has arrived of the next. */
  lemma {:induction false} DeliveredArePrefix(sent: seq<Frame>, delivered: seq<Frame>, rest: bytes)
    requires AllOk(sent) && AllOk(delivered) && ParseFrame(rest).None?
    requires Stream(delivered) + rest <= Stream(sent)
    ensures delivered <= sent && rest <= Stream(sent[|delivered|..])
    ensures |rest| < if |delivered| < |sent| then |FrameWire(sent[|delivered|])| else 1
    ensures Stream(delivered) + rest == Stream(sent) ==> delivered == sent && rest == []
  {
    hide ParseFrame, FrameWire;
    if delivered == [] {
      assert Stream(delivered) + rest == rest && sent[0..] == sent;
      if sent != [] { FirstOfStream(sent, rest); }
    } else {
      var f, more := delivered[0], Stream(delivered[1..]) + rest;
      var all := Stream(delivered) + rest;
      assert all == FrameWire(f) + more;
      ParseFrameWire(f, more);
      if sent != [] {
        FirstOfStream(sent, all);
        assert sent[0] == f;
        assert Stream(sent) == FrameWire(f) + Stream(sent[1..]);
        PrefixOfRest(FrameWire(f), more, Stream(sent[1..]));
        DeliveredArePrefix(sent[1..], delivered[1..], rest);
        assert sent[1..][|delivered[1..]|..] == sent[|delivered|..];
        assert delivered == [f] + delivered[1..] && sent == [f] + sent[1..];
      }
    }
  }

  lemma PrefixOfRest(a: bytes, b: bytes, c: bytes)
    requires a + b <= a + c
    ensures b <= c && (a + b == a + c ==> b == c)
  {
    assert b == (a + b)[|a|..] && c == (a + c)[|a|..];
    assert forall i :: 0 <= i < |b| ==> b[i] == (a + b)[|a| + i] == (a + c)[|a| + i] == c[i];
  }

  const BUFFER_SIZE := 65535 + MAX_WIRE + 4

  /** The buffer is exactly as long as the longest frame. */
  lemma BufferIsLargestFrame(f: Frame)
    requires FrameOk(f)
    ensures |FrameWire(f)| <= BUFFER_SIZE
    ensures |FrameWire(f)| == BUFFER_SIZE <==> f.addr.kind == DOMAIN && |f.addr.host| == 255 && |f.payload| == 65535
  {
  }

  /** A full buffer that does not parse never will, whatever followed. */
  lemma FullBufferIsHopeless(b: bytes, more: bytes)
    requires |b| >= BUFFER_SIZE && ParseFrame(b).None?
    ensures ParseFrame(b + more).None?
  {
    hide ParseFrame;
    if ParseFrame(b + more).Some? {
      ParseFrameSound(b + more);
      BufferIsLargestFrame(ParseFrame(b + more).value.0);
      FirstFrameIn(b, more);
    }
  }

  /** A frame that ends within the first octets parses from those alone. */
  lemma FirstFrameIn(b: bytes, more: bytes)
    requires ParseFrame(b + more).Some? && ParseFrame(b + more).value.1 <= |b|
    ensures ParseFrame(b).Some?
  {
    hide U16, PutU16;
    ParseFrameSound(b + more);
    var (f, n) := ParseFrame(b + more).value;
    assert b == FrameWire(f) + b[n..];
    ParseFrameWire(f, b[n..]);
  }

  // ----- reassembly

  datatype Status = Reading | Paused | Rejected | Closed | GaveUp

  /** What becomes of a frame handed on: sent, kept elsewhere until an answer comes, or refused. */
  datatype Handed = Sent | Kept | Refused

  class UdpClient {
    const udpIn: array<byte>
    var udpInLen: nat
    var delivered: seq<Frame>
    const conn: Conn

    ghost predicate Valid()
      reads this`udpInLen, this`delivered
    {
      udpIn.Length == BUFFER_SIZE && udpInLen <= BUFFER_SIZE && AllOk(delivered)
    }

    /** The frames delivered and the octets still in the buffer are what was received. */
    ghost predicate Accounted()
      requires Valid()
      reads this`udpInLen, this`delivered, conn`input, udpIn
    {
      Stream(delivered) + udpIn[..udpInLen] == conn.input
    }

    constructor (conn: Conn)
      requires conn.input == []
      ensures Valid() && Accounted() && this.conn == conn && delivered == [] && fresh(udpIn)
    {
      this.conn := conn;
      udpIn := new byte[BUFFER_SIZE](_ => 0);
      udpInLen, delivered := 0, [];
    }

    /** memmove of what follows the first frame. */
    method Shift(n: nat)
      requires Valid() && 0 < n <= udpInLen
      modifies udpIn, this`udpInLen
      ensures Valid() && udpInLen == old(udpInLen) - n && udpIn[..udpInLen] == old(udpIn[..udpInLen])[n..]
    {
      ghost var was := udpIn[..];
      var rest := udpInLen - n;
      for i := 0 to rest
        invariant udpInLen == rest + n
        invariant forall j :: 0 <= j < i ==> udpIn[j] == was[n + j]
        invariant forall j :: i <= j < BUFFER_SIZE ==> udpIn[j] == was[j]
      {
        udpIn[i] := udpIn[n + i];
      }
      udpInLen := rest;
    }

    /** Hands one frame on. Sent or kept, it is accounted for; in both cases its octets leave the buffer. */
    method HandOn(f: Frame) returns (r: Handed)
      modifies this`delivered
      ensures delivered == if r == Refused then old(delivered) else old(delivered) + [f]
    {
      r := *;
      if r != Refused {
        delivered := delivered + [f];
      }
    }

    /** The first frame of the buffer goes out. */
    method DeliverFirst() returns (r: Handed)
      requires Valid() && Accounted() && ParseFrame(udpIn[..udpInLen]).Some?
      modifies udpIn, this`udpInLen, this`delivered
      ensures Valid() && Accounted() && (r != Refused ==> udpInLen < old(udpInLen))
    {
      hide ParseFrame, Stream, FrameWire, FrameOk;
      ghost var was, before := udpIn[..udpInLen], delivered;
      var (f, n) := ParseFrame(udpIn[..udpInLen]).value;
      ParsedLength(was);
      ParseFrameSound(was);
      r := HandOn(f);
      if r != Refused {
        Shift(n);
        StreamSnoc(before, f);
        assert was == FrameWire(f) + was[n..];
        Join(Stream(before), FrameWire(f), was[n..]);
        assert Stream(delivered) + udpIn[..udpInLen] == conn.input;
      }
    }

    lemma ParsedLength(b: bytes)
      requires ParseFrame(b).Some?
      ensures 0 < ParseFrame(b).value.1 <= |b|
    {
    }

    method ReadMore() returns (n: int)
      requires Valid() && Accounted() && udpInLen < BUFFER_SIZE
      modifies conn`input, conn`dry, conn`receipts, udpIn, this`udpInLen
      ensures Valid() && Accounted()
      ensures n > 0 ==> udpInLen == old(udpInLen) + n
      ensures n <= 0 ==> udpInLen == old(udpInLen) && udpIn[..udpInLen] == old(udpIn[..udpInLen])
      ensures old(conn.input) <= conn.input && |conn.input| == |old(conn.input)| + (if n > 0 then n else 0)
      ensures conn.dry <==> n == AGAIN
    {
      hide Stream;
      n := conn.Recv(udpIn, udpInLen, BUFFER_SIZE - udpInLen);
      if n > 0 {
        assert udpIn[..udpInLen + n] == udpIn[..udpInLen] + udpIn[udpInLen..udpInLen + n];
        Join(Stream(delivered), udpIn[..udpInLen], udpIn[udpInLen..udpInLen + n]);
        udpInLen := udpInLen + n;
      }
    }

    /** Delivers every whole frame, reads on, and stops when it must wait, fail or reject. `events` bounds the reads. */
    method Process(events: nat) returns (status: Status)
      requires Valid() && Accounted()
      modifies conn`input, conn`dry, conn`receipts, udpIn, this`udpInLen, this`delivered
      ensures Valid() && Accounted() && old(conn.input) <= conn.input
      ensures status == Reading || status == Rejected || status == Closed ==> ParseFrame(udpIn[..udpInLen]).None?
      ensures status == Rejected ==> udpInLen == BUFFER_SIZE
      ensures status == Reading ==> conn.dry || |conn.input| >= |old(conn.input)| + events
    {
      hide ParseFrame, Stream, FrameWire;
      var left := events;
      while true
        invariant Valid() && Accounted() && old(conn.input) <= conn.input
        invariant |conn.input| >= |old(conn.input)| + events - left
        decreases left, udpInLen
      {
        if ParseFrame(udpIn[..udpInLen]).Some? {
          var r := DeliverFirst();
          if r == Kept {
            return Paused;
          }
          if r == Refused {
            return GaveUp;
          }
          continue;
        }
        if udpInLen == BUFFER_SIZE {
          return Rejected;
        }
        if left == 0 {
          return Reading;
        }
        left := left - 1;
        var n := ReadMore();
        if n == AGAIN {
          return Reading;
        }
        if n <= 0 {
          return Closed;
        }
      }
    }

    /** While the peer sends frames, what comes out is the frames it sent, in order: all of them once the stream is
        complete, and a rejection never happens. */
    lemma DeliversTheFrames(sent: seq<Frame>)
      requires Valid() && Accounted() && AllOk(sent) && ParseFrame(udpIn[..udpInLen]).None?
      requires conn.input <= Stream(sent)
      ensures delivered <= sent && udpInLen < BUFFER_SIZE
      ensures conn.input == Stream(sent) ==> delivered == sent && udpInLen == 0
    {
      hide ParseFrame, Stream, FrameWire;
      DeliveredArePrefix(sent, delivered, udpIn[..udpInLen]);
      if |delivered| < |sent| { BufferIsLargestFrame(sent[|delivered|]); }
    }

    /** A rejected buffer could not have become a frame. */
    lemma RejectedIsHopeless(more: bytes)
      requires Valid() && udpInLen == BUFFER_SIZE && ParseFrame(udpIn[..udpInLen]).None?
      ensures ParseFrame(udpIn[..udpInLen] + more).None?
    {
      FullBufferIsHopeless(udpIn[..udpInLen], more);
    }
  }
}
