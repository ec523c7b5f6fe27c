/** A relayed session: bytes pending from the handshake, two directions, and the three ways it closes. */
module RelaySession {
  import opened Bytes
  import opened Relay

  const DRAIN_TIMEOUT := 1000

  datatype Status = Open | Ended | Drained | GaveUp

  function Bag(s: bytes): multiset<byte> { multiset(s) }

  /** Out, pending and buffered bytes together are what came in, in order. */
  ghost predicate InOrder(out: bytes, pending: bytes, buffered: bytes, all: bytes) {
    out + pending + buffered == all
  }

  ghost predicate NoneLost(out: bytes, pending: bytes, buffered: bytes, all: bytes) {
    Bag(out) + Bag(pending) + Bag(buffered) == Bag(all)
  }

  lemma PendingMoved(out: bytes, pending: bytes, out': bytes, pending': bytes, buffered: bytes, all: bytes)
    requires out' + pending' == out + pending
    ensures InOrder(out, pending, buffered, all) ==> InOrder(out', pending', buffered, all)
    ensures NoneLost(out, pending, buffered, all) ==> NoneLost(out', pending', buffered, all)
  {
    assert Bag(out' + pending') == Bag(out') + Bag(pending');
    assert Bag(out + pending) == Bag(out) + Bag(pending);
  }

  /** Buffered bytes moved and `got` came in: nothing is lost. */
  lemma BufferedMoved(out: bytes, pending: bytes, buffered: bytes, out': bytes, buffered': bytes, got: bytes,
                      all: bytes)
    requires out' + buffered' == out + buffered + got && NoneLost(out, pending, buffered, all)
    ensures NoneLost(out', pending, buffered', all + got)
  {
    assert Bag(out' + buffered') == Bag(out') + Bag(buffered');
    assert Bag(out + buffered + got) == Bag(out) + Bag(buffered) + Bag(got);
    calc {
      Bag(out') + Bag(pending) + Bag(buffered');
      Bag(out') + Bag(buffered') + Bag(pending);
      Bag(out) + Bag(buffered) + Bag(got) + Bag(pending);
      Bag(out) + Bag(pending) + Bag(buffered) + Bag(got);
      Bag(all) + Bag(got);
      Bag(all + got);
    }
  }

  /** Order is kept too, if nothing pending was overtaken. */
  lemma BufferedInOrder(out: bytes, pending: bytes, buffered: bytes, out': bytes, buffered': bytes, got: bytes,
                        all: bytes)
    requires out' + buffered' == out + buffered + got && InOrder(out, pending, buffered, all)
    requires pending == [] || out' == out
    ensures InOrder(out', pending, buffered', all + got)
  {
    if pending == [] {
      assert out + pending == out && out' + pending == out';
    } else {
      assert buffered' == (out' + buffered')[|out|..] == (out + buffered + got)[|out|..] == buffered + got;
      assert out + pending + (buffered + got) == (out + pending + buffered) + got;
    }
  }

  class Session {
    const client: Conn
    const upstream: Conn
    /** The bytes that followed the request in the first read, and their buffer. */
    const pendingUp: Buffer?
    /** The handshake's reply to the client. */
    const pendingDown: Buffer?
    const clientBuf: Buffer
    const upBuf: Buffer
    const bufferSize: nat
    var linked: bool
    var stale: bool
    var lastActive: nat
    var status: Status
    /** What each side was owed when the relay began. */
    ghost const upBase: bytes
    ghost const downBase: bytes

    /** The relay begins: two empty buffers, and whatever the handshake left pending. */
    constructor (client: Conn, upstream: Conn, pendingUp: Buffer?, pendingDown: Buffer?, bufferSize: nat,
                 linked: bool, now: nat)
      requires client != upstream && client.input == [] && upstream.input == [] && bufferSize > 0
      requires pendingUp != null ==> pendingUp.Valid() && pendingUp != pendingDown
      requires pendingDown != null ==> pendingDown.Valid()
      ensures Shape() && Buffers() && Conserved() && status == Open && clientBuf.pos == clientBuf.last == 0
              && upBuf.pos == upBuf.last == 0
      ensures this.client == client && this.upstream == upstream && this.pendingUp == pendingUp
              && this.pendingDown == pendingDown
      ensures fresh(clientBuf) && fresh(clientBuf.data) && fresh(upBuf) && fresh(upBuf.data)
      ensures upBase == upstream.output + (if pendingUp == null then [] else pendingUp.Pending())
              && downBase == client.output
    {
      this.client, this.upstream, this.pendingUp, this.pendingDown := client, upstream, pendingUp, pendingDown;
      this.bufferSize := bufferSize;
      this.linked, stale, lastActive, status := linked, false, now, Open;
      upBase := upstream.output + (if pendingUp == null then [] else pendingUp.Pending());
      downBase := client.output;
      clientBuf := new Buffer(bufferSize);
      upBuf := new Buffer(bufferSize);
      new;
      StartsConserved();
    }

    lemma StartsConserved()
      requires Buffers() && clientBuf.Pending() == [] && upBuf.Pending() == []
      requires client.input == [] && upstream.input == [] && upBase == upstream.output + Pending()
               && downBase == client.output
      ensures Conserved()
    {
      assert upBase + client.input == upBase && upstream.output + Pending() + [] == upBase;
      assert client.output + [] == downBase + [];
    }

    ghost predicate Shape() {
      && client != upstream && clientBuf != upBuf && clientBuf.data != upBuf.data
      && pendingUp != clientBuf && pendingUp != upBuf && pendingDown != clientBuf && pendingDown != upBuf
      && (pendingUp != null ==>
            pendingUp != pendingDown && pendingUp.data != clientBuf.data && pendingUp.data != upBuf.data)
      && (pendingDown != null ==> pendingDown.data != clientBuf.data && pendingDown.data != upBuf.data)
    }

    ghost predicate Buffers()
      reads clientBuf, upBuf, pendingUp, pendingDown
    {
      && clientBuf.Valid() && upBuf.Valid() && (pendingUp != null ==> pendingUp.Valid())
      && (pendingDown != null ==> pendingDown.Valid())
    }

    ghost function Pending(): bytes
      requires Buffers()
      reads clientBuf, upBuf, pendingUp, pendingDown, if pendingUp == null then {} else {pendingUp.data}
    {
      if pendingUp == null then [] else pendingUp.Pending()
    }

    /** Nothing is lost in either direction; on sticky connections nothing is overtaken either. */
    ghost predicate Conserved()
      requires Buffers()
      reads client`input, client`output, upstream`input, upstream`output,
            clientBuf, upBuf, pendingUp, pendingDown, clientBuf.data, upBuf.data,
            if pendingUp == null then {} else {pendingUp.data}
    {
      && NoneLost(upstream.output, Pending(), clientBuf.Pending(), upBase + client.input)
      && (upstream.sticky ==> InOrder(upstream.output, Pending(), clientBuf.Pending(), upBase + client.input))
      && client.output + upBuf.Pending() == downBase + upstream.input
    }

    /** Both streams have ended, and nothing is between them. */
    predicate Finished()
      reads client`eof, upstream`eof, clientBuf, upBuf
    {
      client.eof && upstream.eof && clientBuf.pos == clientBuf.last && upBuf.pos == upBuf.last
    }

    /** The upstream takes nothing in this event. */
    predicate Stuck()
      reads upstream`blocked
    {
      upstream.sticky && upstream.blocked
    }

    /** The pending bytes go first. */
    method RelayPending() returns (ok: bool, moved: bool)
      requires Shape() && Buffers() && Conserved()
      modifies upstream`output, upstream`blocked
      modifies if pendingUp == null then {} else {pendingUp}
      ensures Buffers() && Conserved()
      ensures ok ==> Pending() == [] || upstream.blocked
      ensures old(Stuck()) ==> ok && Stuck() && Pending() == old(Pending())
    {
      if pendingUp == null || pendingUp.pos == pendingUp.last {
        return true, false;
      }
      hide Conserved;
      ghost var out, pending := upstream.output, pendingUp.Pending();
      ok, moved := ProcessPending(upstream, pendingUp);
      PendingMoved(out, pending, upstream.output, pendingUp.Pending(), clientBuf.Pending(), upBase + client.input);
    }

    method RelayUp(readable: nat -> bool) returns (ok: bool, moved: bool)
      requires Shape() && Buffers() && Conserved() && (Pending() == [] || upstream.blocked)
      modifies client`input, client`dry, client`receipts, client`eof, upstream`output, upstream`blocked, clientBuf,
               clientBuf.data
      ensures Buffers() && Conserved() && Pending() == old(Pending()) && (old(upstream.blocked) ==> upstream.blocked)
      ensures ok ==> Rested(client, upstream, clientBuf, bufferSize, readable)
      ensures old(Finished()) ==> ok && Finished()
    {
      hide NoneLost, InOrder, Buffer.Pending, Limit;
      ghost var out, buffered, input := upstream.output, clientBuf.Pending(), client.input;
      var loops: nat;
      ghost var got: bytes;
      ok, moved, loops, got := ProcessDirection(client, upstream, clientBuf, bufferSize, readable);
      Join(upBase, input, got);
      BufferedMoved(out, Pending(), buffered, upstream.output, clientBuf.Pending(), got, upBase + input);
      if upstream.sticky {
        BufferedInOrder(out, Pending(), buffered, upstream.output, clientBuf.Pending(), got, upBase + input);
      }
    }

    method RelayDown(readable: nat -> bool) returns (ok: bool, moved: bool)
      requires Shape() && Buffers() && Conserved()
      modifies upstream`input, upstream`dry, upstream`receipts, upstream`eof, client`output, client`blocked, upBuf,
               upBuf.data
      ensures Buffers() && Conserved() && Pending() == old(Pending())
      ensures ok ==> Rested(upstream, client, upBuf, bufferSize, readable)
      ensures old(Finished()) ==> ok && Finished()
    {
      ghost var input := upstream.input;
      var loops: nat;
      ghost var got: bytes;
      ok, moved, loops, got := ProcessDirection(upstream, client, upBuf, bufferSize, readable);
      Join(downBase, input, got);
    }

    function Empty(b: Buffer?): bool
      reads b
    {
      b == null || b.pos >= b.last
    }

    /** Nothing is waiting in any of the four buffers. */
    function Idle(): bool
      reads clientBuf, upBuf, pendingUp, pendingDown
    {
      Empty(pendingUp) && Empty(pendingDown) && clientBuf.pos == clientBuf.last && upBuf.pos == upBuf.last
    }

    method Touch(moved: bool, now: nat)
      modifies this`lastActive
      ensures lastActive == if moved && linked then now else old(lastActive)
    {
      if moved && linked {
        lastActive := now;
      }
    }

    /** A stale session is closed once it has been idle for the drain timeout. */
    method CheckStale(now: nat) returns (closed: bool)
      modifies this`status, this`lastActive
      ensures closed <==> linked && stale && Idle() && now - old(lastActive) >= 1000
      ensures status == if closed then Drained else old(status)
      ensures lastActive == if linked && stale && !Idle() then now else old(lastActive)
    {
      closed := false;
      if !linked || !stale {
        return;
      }
      if !Idle() {
        lastActive := now;
        return;
      }
      if now - lastActive >= DRAIN_TIMEOUT {
        status := Drained;
        closed := true;
      }
    }

    /** What each side has been given is all it was ever owed. */
    ghost predicate AllDelivered()
      reads client`input, client`output, upstream`input, upstream`output
    {
      && Bag(upstream.output) == Bag(upBase + client.input)
      && (upstream.sticky ==> upstream.output == upBase + client.input)
      && client.output == downBase + upstream.input
    }

    lemma EmptyIsDelivered()
      requires Buffers() && Conserved() && clientBuf.pos == clientBuf.last && upBuf.pos == upBuf.last
      ensures AllDelivered() <==> Pending() == []
    {
      var all := upBase + client.input;
      assert clientBuf.Pending() == [] && upBuf.Pending() == [];
      assert Bag(upstream.output) + Bag(Pending()) == Bag(all);
      assert client.output + [] == client.output;
      if Pending() == [] {
        assert upstream.output + [] + [] == upstream.output;
      } else {
        assert Pending()[0] in Bag(Pending());
        assert |Bag(upstream.output) + Bag(Pending())| == |Bag(upstream.output)| + |Bag(Pending())|;
      }
    }

    /** Both directions; the first failed send ends it. */
    method BothWays(readClient: nat -> bool, readUpstream: nat -> bool, now: nat) returns (ok: bool)
      requires Shape() && Buffers() && Conserved() && (Pending() == [] || upstream.blocked)
      modifies this`lastActive, client`input, client`dry, client`receipts, client`eof, client`output, client`blocked
      modifies upstream`input, upstream`dry, upstream`receipts, upstream`eof, upstream`output, upstream`blocked,
               clientBuf, clientBuf.data, upBuf, upBuf.data
      ensures Buffers() && Conserved() && Pending() == old(Pending()) && (old(upstream.blocked) ==> upstream.blocked)
      ensures ok ==> Rested(client, upstream, clientBuf, bufferSize, readClient)
      ensures ok ==> Rested(upstream, client, upBuf, bufferSize, readUpstream)
      ensures old(Finished()) ==> ok && Finished()
    {
      hide Conserved, Buffer.Pending, Session.Pending, Finished, StopsAt, Limit;
      var moved: bool;
      ok, moved := RelayUp(readClient);
      Touch(moved, now);
      if ok {
        ok, moved := RelayDown(readUpstream);
        Touch(moved, now);
      }
    }

    /** The moving half of an event: pending bytes first. */
    method Move(readClient: nat -> bool, readUpstream: nat -> bool, now: nat) returns (ok: bool)
      requires Shape() && Buffers() && Conserved()
      modifies this`lastActive, client, upstream, clientBuf, clientBuf.data, upBuf, upBuf.data
      modifies if pendingUp == null then {} else {pendingUp}
      ensures Buffers() && Conserved()
      ensures ok ==> (Pending() == [] || upstream.blocked)
      ensures ok ==> Rested(client, upstream, clientBuf, bufferSize, readClient)
      ensures ok ==> Rested(upstream, client, upBuf, bufferSize, readUpstream)
      ensures old(Finished() && Stuck()) ==> ok && Finished() && Pending() == old(Pending())
    {
      hide Conserved, Buffer.Pending, Session.Pending;
      var moved: bool;
      ok, moved := RelayPending();
      Touch(moved, now);
      if ok {
        ok := BothWays(readClient, readUpstream, now);
      }
    }

    /** The closing half: the end of both streams, else a drained stale session. */
    method Close(now: nat)
      requires Buffers() && Conserved() && status == Open
      modifies this`status, this`lastActive
      ensures status == Drained ==> AllDelivered()
      ensures status == Ended ==> (AllDelivered() <==> Pending() == [])
      ensures status == Ended <==> Finished()
      ensures status == Drained <==>
              status != Ended && linked && stale && Idle() && now - old(lastActive) >= 1000
      ensures status != GaveUp
    {
      hide Conserved, AllDelivered;
      if clientBuf.pos == clientBuf.last && upBuf.pos == upBuf.last {
        EmptyIsDelivered();
      }
      if client.eof && upstream.eof && clientBuf.pos == clientBuf.last && upBuf.pos == upBuf.last {
        status := Ended;
        return;
      }
      var closed := CheckStale(now);
    }

    /** One event of the relay: pending bytes, both directions, then the two closing checks. */
    method ProcessProxy(readClient: nat -> bool, readUpstream: nat -> bool, now: nat)
      requires Shape() && Buffers() && Conserved() && status == Open
      modifies this`status, this`lastActive, client, upstream, clientBuf, clientBuf.data, upBuf, upBuf.data
      modifies if pendingUp == null then {} else {pendingUp}
      ensures Buffers() && Conserved()
      ensures status == Drained ==> AllDelivered() && Idle() && linked && stale
      ensures status == Ended ==> Finished() && (AllDelivered() <==> Pending() == [])
      ensures status == Open ==> !Finished()
      ensures status != GaveUp ==>
                && (Pending() == [] || upstream.blocked)
                && Rested(client, upstream, clientBuf, bufferSize, readClient)
                && Rested(upstream, client, upBuf, bufferSize, readUpstream)
    {
      hide Conserved, AllDelivered, Finished, Idle, Session.Pending, StopsAt, Limit;
      client.blocked, client.dry := false, false;
      upstream.blocked, upstream.dry := false, false;
      var ok := Move(readClient, readUpstream, now);
      if ok {
        Close(now);
      } else {
        status := GaveUp;
      }
    }

    /** An event with an upstream that takes nothing: when both streams have ended the session is closed, and what was
        pending for the upstream is lost, every time there is something. */
    method EventWhileStuck(readClient: nat -> bool, readUpstream: nat -> bool, now: nat)
      requires Shape() && Buffers() && Conserved() && status == Open && Finished() && Stuck()
      modifies this`status, this`lastActive, client, upstream, clientBuf, clientBuf.data, upBuf, upBuf.data
      modifies if pendingUp == null then {} else {pendingUp}
      ensures Buffers() && Conserved() && status == Ended && Pending() == old(Pending())
      ensures AllDelivered() <==> old(Pending()) == []
    {
      hide Conserved, AllDelivered, Session.Pending, Finished, Stuck;
      var ok := Move(readClient, readUpstream, now);
      Close(now);
    }
  }

  /** Such an event exists: a byte pending for the upstream never leaves, although its send is tried first. */
  method EndLosesPending() returns (s: Session)
    ensures s.Buffers() && s.Conserved() && s.status == Ended && s.Pending() == [7] && !s.AllDelivered()
  {
    hide Session.Conserved, Session.AllDelivered;
    var client := new Conn(true);
    var upstream := new Conn(true);
    client.eof, upstream.eof, upstream.blocked := true, true, true;
    var pending := new Buffer(1);
    pending.data[0] := 7;
    pending.last := 1;
    assert pending.Pending() == [7];
    s := new Session(client, upstream, pending, null, 1, false, 0);
    assert s.Pending() == [7] && s.Finished() && s.Stuck();
    hide Session.Pending, Session.Finished, Session.Stuck, Session.Shape, Session.Buffers;
    s.EventWhileStuck(_ => true, _ => true, 0);
  }
}
