/** Incremental lengths: how far a message reaches, told from its first octets, and the loop that reads exactly that
    far. */
module ExactRead {
  import opened Address
  import opened Bytes
  import Relay

  /** Done: the message ends at n. More: at least n octets are needed. Bad: no message begins like this. */
  datatype Sizing = Done(n: nat) | More(n: nat) | Bad

  type Sizer = bytes -> Sizing

  /** "More" asks for something new, but never for more than any message takes that begins like this;
      what is done or bad stays so; and no message is longer than max. */
  ghost predicate Exact(size: Sizer, max: nat) {
    && (forall b {:trigger size(b)} :: match size(b)
                                       case More(n) => |b| < n <= max
                                       case Done(n) => n <= |b| && n <= max
                                       case Bad => true)
    && (forall b, more: bytes {:trigger size(b + more)} ::
          && (size(b).More? && size(b + more).Done? ==> size(b).n <= size(b + more).n)
          && (!size(b).More? ==> size(b + more) == size(b)))
  }

  // ----- the messages

  /** What an address still needs, from its first octets: as the SOCKS5 codec reports it. */
  function AddrSize(b: bytes): (r: Sizing)
    ensures r.Done? ==> 4 <= r.n <= |b|
  {
    if b == [] then More(1)
    else if b[0] == IPV4 then (if |b| >= 7 then Done(7) else More(7))
    else if b[0] == IPV6 then (if |b| >= 19 then Done(19) else More(19))
    else if b[0] == DOMAIN then
      if |b| < 2 then More(2)
      else
        var n: nat := b[1];
        if |b| >= 4 + n then Done(4 + n) else More(4 + n)
    else Bad
  }

  const VERSION: byte := 5
  const CONNECT: byte := 1
  const ASSOCIATE: byte := 3

  function GreetingSize(b: bytes): Sizing {
    if |b| < 2 then More(2)
    else if b[0] != VERSION then Bad
    else
      var n: nat := b[1];
      if |b| >= 2 + n then Done(2 + n) else More(2 + n)
  }

  function After3(b: bytes): (r: Sizing)
    requires |b| >= 4
    ensures r.Done? ==> 7 <= r.n <= |b|
  {
    match AddrSize(b[3..])
    case Done(n) => Done(3 + n)
    case More(n) => More(3 + n)
    case Bad => Bad
  }

  /** A client's SOCKS5 request. */
  function RequestSize(b: bytes): (r: Sizing)
    ensures r.Done? ==> 7 <= r.n <= |b|
  {
    if |b| < 4 then More(4)
    else if b[0] != VERSION || b[2] != 0 || (b[1] != CONNECT && b[1] != ASSOCIATE) then Bad
    else After3(b)
  }

  /** A server's SOCKS5 reply. */
  function ResponseSize(b: bytes): (r: Sizing)
    ensures r.Done? ==> 7 <= r.n <= |b|
  {
    if |b| < 4 then More(4)
    else if b[0] != VERSION || b[2] != 0 then Bad
    else After3(b)
  }

  /** A Trojan request: command, address, CR LF. */
  function TrojanSize(b: bytes): Sizing {
    if |b| < 2 then More(2)
    else if b[0] != CONNECT && b[0] != ASSOCIATE then Bad
    else if b[1] == IPV4 then (if |b| < 10 then More(10) else Done(10))
    else if b[1] == IPV6 then (if |b| < 22 then More(22) else Done(22))
    else if b[1] == DOMAIN then
      if |b| < 3 then More(3)
      else
        var n: nat := b[2];
        if |b| < 7 + n then More(7 + n) else Done(7 + n)
    else Bad
  }

  lemma AddrSizeExact(b: bytes, more: bytes)
    ensures match AddrSize(b)
            case More(n) => |b| < n <= MAX_WIRE
            case Done(n) => n <= |b| && n <= MAX_WIRE
            case Bad => true
    ensures AddrSize(b).More? && AddrSize(b + more).Done? ==> AddrSize(b).n <= AddrSize(b + more).n
    ensures !AddrSize(b).More? ==> AddrSize(b + more) == AddrSize(b)
  {
    if b != [] { assert (b + more)[0] == b[0]; }
  }

  lemma GreetingIsExact()
    ensures Exact(GreetingSize, 257)
  {
    forall b, more: bytes
      ensures GreetingSize(b).More? && GreetingSize(b + more).Done? ==> GreetingSize(b).n <= GreetingSize(b + more).n
      ensures !GreetingSize(b).More? ==> GreetingSize(b + more) == GreetingSize(b)
    {
    }
  }

  lemma After3Exact(b: bytes, more: bytes)
    requires |b| >= 4
    ensures After3(b).More? && After3(b + more).Done? ==> After3(b).n <= After3(b + more).n
    ensures !After3(b).More? ==> After3(b + more) == After3(b)
  {
    assert (b + more)[3..] == b[3..] + more;
    AddrSizeExact(b[3..], more);
  }

  lemma RequestIsExact()
    ensures Exact(RequestSize, 262)
  {
    forall b: bytes ensures match RequestSize(b)
                            case More(n) => |b| < n <= 262
                            case Done(n) => n <= |b| && n <= 262
                            case Bad => true
    {
      if |b| >= 4 { AddrSizeExact(b[3..], []); }
    }
    forall b, more: bytes
      ensures RequestSize(b).More? && RequestSize(b + more).Done? ==> RequestSize(b).n <= RequestSize(b + more).n
      ensures !RequestSize(b).More? ==> RequestSize(b + more) == RequestSize(b)
    {
      if |b| >= 4 { After3Exact(b, more); }
      if |b + more| >= 4 { AddrSizeExact((b + more)[3..], []); }
    }
  }

  lemma ResponseIsExact()
    ensures Exact(ResponseSize, 262)
  {
    forall b: bytes ensures match ResponseSize(b)
                            case More(n) => |b| < n <= 262
                            case Done(n) => n <= |b| && n <= 262
                            case Bad => true
    {
      if |b| >= 4 { AddrSizeExact(b[3..], []); }
    }
    forall b, more: bytes
      ensures ResponseSize(b).More? && ResponseSize(b + more).Done? ==> ResponseSize(b).n <= ResponseSize(b + more).n
      ensures !ResponseSize(b).More? ==> ResponseSize(b + more) == ResponseSize(b)
    {
      if |b| >= 4 { After3Exact(b, more); }
      if |b + more| >= 4 { AddrSizeExact((b + more)[3..], []); }
    }
  }

  lemma TrojanIsExact()
    ensures Exact(TrojanSize, 262)
  {
    forall b, more: bytes
      ensures TrojanSize(b).More? && TrojanSize(b + more).Done? ==> TrojanSize(b).n <= TrojanSize(b + more).n
      ensures !TrojanSize(b).More? ==> TrojanSize(b + more) == TrojanSize(b)
    {
    }
  }

  /** The part of a message that is there can only ask for more, and never for more than the message takes. */
  lemma PrefixAsksWithin(size: Sizer, max: nat, m: bytes, k: nat)
    requires Exact(size, max) && size(m) == Done(|m|) && k < |m|
    ensures size(m[..k]).More? && k < size(m[..k]).n <= |m|
  {
    assert m[..k] + m[k..] == m;
    assert size(m[..k] + m[k..]) == Done(|m|);
    assert match size(m[..k]) case Done(n) => n <= k case _ => true;
  }

  // ----- the read loop

  datatype Outcome = Ready | Wait | Failed

  class Reader {
    const conn: Relay.Conn
    const buf: array<byte>
    var len: nat

    ghost predicate Valid()
      reads this`len
    {
      len <= buf.Length
    }

    function Read(): bytes
      requires Valid()
      reads this`len, buf
    {
      buf[..len]
    }

    /** Nothing beyond the message has been taken. */
    ghost predicate Within(size: Sizer)
      requires Valid()
      reads this`len, buf
    {
      size(Read()).Done? ==> size(Read()).n == len
    }

    constructor (conn: Relay.Conn, room: nat)
      requires conn.input == []
      ensures Valid() && Read() == [] == conn.input && this.conn == conn && buf.Length == room && fresh(buf)
    {
      this.conn := conn;
      buf := new byte[room](_ => 0);
      len := 0;
    }

    /** Reads until the message is whole, asking each time for no more than is known to be needed. */
    method ReadMessage(size: Sizer, max: nat) returns (r: Outcome)
      requires Exact(size, max) && Valid() && Within(size) && max <= buf.Length && Read() == conn.input
      modifies this`len, buf, conn`input, conn`dry, conn`receipts
      ensures Valid() && Within(size) && Read() == conn.input && old(conn.input) <= conn.input
      ensures r == Ready <==> size(Read()).Done?
      ensures r == Ready ==> size(Read()) == Done(len)
      ensures size(Read()).Bad? ==> r == Failed
      ensures r == Wait ==> conn.dry
    {
      while true
        invariant Valid() && Within(size) && Read() == conn.input && old(conn.input) <= conn.input
        decreases max - len
      {
        var s := size(buf[..len]);
        if s.Bad? {
          return Failed;
        }
        if s.Done? {
          return Ready;
        }
        assert len < s.n <= max;
        ghost var before := Read();
        var n := conn.Recv(buf, len, s.n - len);
        if n == Relay.AGAIN {
          return Wait;
        }
        if n <= 0 {
          return Failed;
        }
        assert buf[..len + n] == before + buf[len..len + n];
        len := len + n;
        assert size(before + buf[len - n..len]) == size(Read());
      }
    }
  }

  /** If the peer's octets begin with a message, what the loop ends up with is that message and no octet more. */
  lemma ReadsTheMessage(size: Sizer, max: nat, read: bytes, m: bytes, rest: bytes)
    requires Exact(size, max) && size(m) == Done(|m|)
    requires read <= m + rest && size(read) == Done(|read|)
    ensures read == m
  {
    var s := m + rest;
    assert s == read + s[|read|..];
    assert size(s) == Done(|m|);
    assert size(read + s[|read|..]) == Done(|read|);
  }
}
