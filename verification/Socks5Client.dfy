/** The SOCKS5 client handshake towards an upstream server, under any partial sends and receives. */
module Socks5Client {
  import opened Address
  import opened Bytes
  import opened ExactRead
  import opened Socks5Codec
  import Relay

  const BUFFER_SIZE := 1024

  datatype Mode = Tcp | Udp

  datatype Step = GreetingWrite | MethodRead | AuthWrite | AuthRead | RequestWrite | ResponseRead | Established | GaveUp

  datatype Login = Login(username: bytes, password: bytes)

  // ----- what may be said

  function Unspecified(): Target { Target(IPV4, [0, 0, 0, 0], 0) }

  /** The request: the target for TCP, the unspecified IPv4 address for UDP. */
  function RequestOf(mode: Mode, target: Target): Option<bytes> {
    if mode.Udp? then UdpRequest()
    else if WellFormed(target) then Some(Message(CONNECT, target))
    else None
  }

  function UdpRequest(): Option<bytes> { Some(Message(ASSOCIATE, Unspecified())) }

  lemma UnspecifiedWire()
    ensures WellFormed(Unspecified()) && Wire(Unspecified()) == [1] + [0, 0, 0, 0] + [0, 0]
  {
    hide U16;
    var t := Unspecified();
    assert Lead(t) == [1] && t.host == [0, 0, 0, 0] && PutU16(t.port) == [0, 0];
    hide Lead, PutU16, Unspecified;
  }

  /** The request in octets: for UDP 5, 3, 0 and 0.0.0.0 with port 0. */
  lemma RequestOctets(mode: Mode, target: Target)
    ensures mode.Udp? ==> RequestOf(mode, target) == Some([5, 3, 0] + ([1] + [0, 0, 0, 0] + [0, 0]))
    ensures mode.Tcp? && WellFormed(target) ==> RequestOf(mode, target) == Some([5, 1, 0] + Wire(target))
    ensures mode.Tcp? && !WellFormed(target) ==> RequestOf(mode, target) == None
  {
    hide Wire, Unspecified, WellFormed;
    UnspecifiedWire();
  }

  predicate Wants(login: Login) { login.username != [] }

  function Hello(login: Login): bytes { Greeting(Wants(login)) }

  function LoginWire(login: Login): bytes {
    if CredentialsOk(login.username, login.password) then Auth(login.username, login.password) else []
  }

  const OPEN := [VERSION, NO_AUTH]
  const ASKED := [VERSION, USERPASS]
  const ADMITTED := [AUTH_VERSION, STATUS_OK]

  /** What the server must have said before the request may go out: it needs no login,
      or it asked for one, one is configured, and it accepted it. */
  predicate Cleared(login: Login, heard: bytes) {
    heard == OPEN || (heard == ASKED + ADMITTED && Wants(login) && CredentialsOk(login.username, login.password))
  }

  /** What has been written by then. */
  function Introduction(login: Login, heard: bytes): bytes {
    Hello(login) + if heard == OPEN then [] else LoginWire(login)
  }

  /** What may be on its way to the server, given all it said: the greeting; the credentials only once it asked for them
      and they are configured; the request only once it cleared the client. */
  ghost predicate MaySay(login: Login, request: bytes, heard: bytes, said: bytes) {
    || said <= Hello(login)
    || (ASKED <= heard && Wants(login) && said <= Hello(login) + LoginWire(login))
    || (OPEN <= heard && said <= Introduction(login, OPEN) + request)
    || (ASKED + ADMITTED <= heard && Wants(login) && said <= Introduction(login, ASKED + ADMITTED) + request)
  }

  /** An accepting reply, whole, and nothing beyond it. */
  predicate AcceptingReply(reply: bytes) {
    ParseResponse(reply).Some? && ResponseSize(reply) == Done(|reply|)
  }

  /** In octets: what clears a client, and what accepts its request. */
  lemma ClearedOctets(login: Login, heard: bytes)
    ensures Cleared(login, heard) <==>
              || heard == [5, 0]
              || (heard == [5, 2, 1, 0] && 1 <= |login.username| <= 255 && |login.password| <= 255)
  {
    assert ASKED + ADMITTED == [5, 2, 1, 0];
  }

  lemma AcceptingReplyOctets(reply: bytes)
    ensures AcceptingReply(reply) <==> exists t :: WellFormed(t) && reply == [5, 0, 0] + Wire(t)
  {
    hide Wire, ParseResponse, ResponseSize;
    if AcceptingReply(reply) {
      ResponseSound(reply);
      var t := ParseResponse(reply).value;
      assert Message(STATUS_OK, t) == reply[..|Message(STATUS_OK, t)|];
    }
    if t :| WellFormed(t) && reply == [5, 0, 0] + Wire(t) {
      ResponseRoundTrip(t, []);
      MessageSize(STATUS_OK, t, []);
      assert Message(STATUS_OK, t) + [] == reply;
    }
  }

  predicate AcceptedAfter(login: Login, request: bytes, before: bytes, heard: bytes, said: bytes) {
    && Cleared(login, before) && before <= heard && AcceptingReply(heard[|before|..])
    && said == Introduction(login, before) + request && request != []
  }

  /** A finished handshake: cleared one way or the other, the request said, and an accepting reply heard. */
  predicate Accepted(login: Login, request: bytes, heard: bytes, said: bytes) {
    AcceptedAfter(login, request, OPEN, heard, said) || AcceptedAfter(login, request, ASKED + ADMITTED, heard, said)
  }

  class Client {
    const conn: Relay.Conn
    const buffer: Relay.Buffer
    const mode: Mode
    const login: Login
    const target: Target
    ghost const request: bytes
    var step: Step
    /** What the server said in the steps already done. */
    ghost var heard: bytes

    ghost predicate Valid()
      reads buffer
    {
      buffer.Valid() && buffer.data.Length == BUFFER_SIZE
    }

    ghost function Held(): bytes
      requires Valid()
      reads buffer, buffer.data
    {
      buffer.Pending()
    }

    /** `request` is the wire form of the request, if it has one. */
    ghost predicate Intended() {
      forall wire :: RequestOf(mode, target) == Some(wire) ==> request == wire
    }

    /** What each step knows about the conversation. */
    ghost predicate Knows()
      requires Valid()
      reads this, buffer, buffer.data, conn`input, conn`output
    {
      match step
      case GreetingWrite => heard == [] == conn.input && conn.output + Held() == Hello(login)
      case MethodRead => AwaitsMethod()
      case AuthWrite =>
        && heard == conn.input == ASKED && Wants(login) && CredentialsOk(login.username, login.password)
        && conn.output + Held() == Hello(login) + LoginWire(login)
      case AuthRead => AwaitsStatus()
      case RequestWrite =>
        && conn.input == heard && Cleared(login, heard) && request != []
        && conn.output + Held() == Introduction(login, heard) + request
      case ResponseRead =>
        && conn.input == heard + Held() && Cleared(login, heard) && request != [] && buffer.pos == 0
        && conn.output == Introduction(login, heard) + request && ReplyWithin()
      case Established => Accepted(login, request, conn.input, conn.output)
      case GaveUp => MaySay(login, request, conn.input, conn.output)
    }

    ghost predicate AwaitsMethod()
      requires Valid()
      reads this, buffer, buffer.data, conn`input, conn`output
    {
      heard == [] && conn.input == Held() && conn.output == Hello(login) && Reading(2)
    }

    ghost predicate AwaitsStatus()
      requires Valid()
      reads this, buffer, buffer.data, conn`input, conn`output
    {
      && heard == ASKED && Wants(login) && CredentialsOk(login.username, login.password) && Reading(2)
      && conn.input == heard + Held() && conn.output == Hello(login) + LoginWire(login)
    }

    ghost predicate Reading(n: nat)
      reads buffer
    {
      buffer.pos == 0 && buffer.last <= n
    }

    ghost predicate ReplyWithin()
      requires Valid()
      reads buffer, buffer.data
    {
      ResponseSize(Held()).Done? ==> ResponseSize(Held()).n == |Held()|
    }

    /** A step is left only for cause: a write for a blocked connection, a read for one with nothing to give. */
    ghost predicate Waits()
      reads this`step, conn`blocked, conn`dry
    {
      match step
      case GreetingWrite => conn.blocked
      case AuthWrite => conn.blocked
      case RequestWrite => conn.blocked
      case MethodRead => conn.dry
      case AuthRead => conn.dry
      case ResponseRead => conn.dry
      case _ => true
    }

    /** Fills the emptied buffer with a message to send. */
    method Load(s: bytes)
      requires Valid() && |s| <= BUFFER_SIZE
      modifies buffer, buffer.data
      ensures Valid() && Held() == s
    {
      buffer.pos := 0;
      buffer.last := Write(buffer.data, 0, s);
    }

    constructor (conn: Relay.Conn, mode: Mode, login: Login, target: Target)
      requires conn.input == [] == conn.output
      ensures Valid() && Knows() && Intended() && step == GreetingWrite && this.conn == conn && this.login == login
      ensures this.mode == mode && this.target == target && fresh(buffer) && fresh(buffer.data)
    {
      hide RequestOf, Introduction, LoginWire, AwaitsMethod, AwaitsStatus, Accepted, MaySay, Cleared, CredentialsOk,
           ReplyWithin;
      this.conn, this.mode, this.login, this.target := conn, mode, login, target;
      buffer := new Relay.Buffer(BUFFER_SIZE);
      step := GreetingWrite;
      heard := [];
      request := match RequestOf(mode, target) case Some(wire) => wire case None => [];
      new;
      var written := BuildGreeting(|login.username| != 0, buffer.data);
      buffer.last := written.value;
      assert conn.output + Held() == Hello(login);
    }

    /** Tries to read up to n octets in all; Ready when they are there. */
    method Read(n: nat) returns (r: Outcome)
      requires Valid() && buffer.pos == 0 && n <= BUFFER_SIZE && buffer.last <= n
      modifies buffer`last, buffer.data, conn`input, conn`dry, conn`receipts
      ensures Valid() && buffer.last <= n
      ensures old(Held()) <= Held() && conn.input == old(conn.input) + Held()[|old(Held())|..]
      ensures r == Ready <==> buffer.last == n
      ensures r == Wait ==> conn.dry
    {
      ghost var h0, in0, got := Held(), conn.input, [];
      while buffer.last < n
        invariant Valid() && buffer.last <= n && Held() == h0 + got && conn.input == in0 + got
        decreases n - buffer.last
      {
        ghost var last := buffer.last;
        var k := conn.Recv(buffer.data, buffer.last, n - buffer.last);
        if k == Relay.AGAIN {
          r := Wait;
          break;
        }
        if k <= 0 {
          r := Failed;
          break;
        }
        buffer.last := buffer.last + k;
        Received(last, k, h0 + got);
        Relay.Join(h0, got, buffer.data[last..last + k]);
        Relay.Join(in0, got, buffer.data[last..last + k]);
        got := got + buffer.data[last..last + k];
      }
      assert (h0 + got)[|h0|..] == got;
      if buffer.last == n {
        r := Ready;
      }
    }

    lemma Received(last: nat, k: nat, before: bytes)
      requires Valid() && buffer.pos == 0 && buffer.last == last + k && buffer.data[..last] == before
      ensures Held() == before + buffer.data[last..last + k]
    {
    }

    lemma KnowsMaySay()
      requires Valid() && Knows()
      ensures MaySay(login, request, conn.input, conn.output)
    {
      hide Message, Auth;
      match step
      case GreetingWrite => PrefixOf(conn.output, Held());
      case MethodRead =>
      case AuthWrite => PrefixOf(conn.output, Held());
      case AuthRead => PrefixOf(heard, Held());
      case RequestWrite => PrefixOf(conn.output, Held());
      case ResponseRead => PrefixOf(heard, Held());
      case Established =>
      case GaveUp =>
    }

    lemma PrefixOf(a: bytes, b: bytes)
      ensures a <= a + b
    {
    }

    method Abandon()
      requires Valid() && MaySay(login, request, conn.input, conn.output)
      modifies this`step
      ensures Valid() && Knows() && step == GaveUp
    {
      step := GaveUp;
    }

    /** Sends what is loaded; `done` when all of it is out. */
    method Flush() returns (done: bool, failed: bool)
      requires Valid()
      modifies buffer`pos, conn`output, conn`blocked
      ensures Valid() && conn.output + Held() == old(conn.output + Held())
      ensures done ==> Held() == [] && conn.output == old(conn.output + Held()) && !failed
      ensures !done && !failed ==> conn.blocked
    {
      var r, moved := Relay.Flush(conn, buffer);
      done, failed := r == Relay.Done, r == Relay.Failed;
      if done { assert Held() == [] && conn.output + [] == conn.output; }
    }

    method Empty()
      requires Valid()
      modifies buffer`pos, buffer`last
      ensures Valid() && Held() == [] && buffer.pos == buffer.last == 0
    {
      buffer.pos := 0;
      buffer.last := 0;
    }

    method WriteGreeting() returns (more: bool)
      requires Valid() && Knows() && step == GreetingWrite
      modifies this`step, buffer`pos, buffer`last, conn`output, conn`blocked
      ensures Valid() && Knows() && (more ==> step == MethodRead) && (!more ==> step == GreetingWrite || step == GaveUp)
      ensures !more ==> Waits()
    {
      var done, failed := Flush();
      if !done {
        if failed {
          KnowsMaySay();
          Abandon();
        }
        return false;
      }
      step := MethodRead;
      Empty();
      return true;
    }

    method ReadMethod() returns (more: bool)
      requires Valid() && AwaitsMethod() && Intended() && step == MethodRead
      modifies this`step, this`heard, buffer, buffer.data, conn`input, conn`dry, conn`receipts
      ensures Valid() && Knows() && (more ==> step == AuthWrite || step == RequestWrite)
      ensures !more ==> step == MethodRead || step == GaveUp
      ensures !more ==> Waits()
    {
      hide Intended, MaySay, Accepted, LoginWire, Hello, Cleared, Introduction, CredentialsOk, RequestOf, ReplyWithin,
           AwaitsStatus;
      ghost var h := Held();
      var r := Read(2);
      assert conn.input == h + Held()[|h|..] == Held();
      if r != Ready {
        if r == Failed {
          KnowsMaySay();
          Abandon();
        }
        return false;
      }
      KnowsMaySay();
      var answer := buffer.data[..2];
      assert answer == Held() == conn.input;
      var chosen := ParseMethodResponse(answer, |login.username| != 0);
      if chosen == Credentials {
        assert answer == ASKED;
        more := LoadCredentials();
      } else if chosen == Open {
        assert answer == OPEN;
        OpenClears();
        more := LoadRequest();
      } else {
        Abandon();
        more := false;
      }
    }

    lemma OpenClears()
      ensures Cleared(login, OPEN) && Introduction(login, OPEN) == Hello(login)
    {
    }

    lemma AdmittedClears()
      requires Wants(login) && CredentialsOk(login.username, login.password)
      ensures Cleared(login, ASKED + ADMITTED)
              && Introduction(login, ASKED + ADMITTED) == Hello(login) + LoginWire(login)
    {
      assert (ASKED + ADMITTED)[1] != OPEN[1];
    }

    /** The server asked for a login, and one is configured. */
    method LoadCredentials() returns (more: bool)
      requires Valid() && conn.input == ASKED && Wants(login) && conn.output == Hello(login)
      modifies this`step, this`heard, buffer, buffer.data
      ensures Valid() && Knows() && if more then step == AuthWrite else step == GaveUp
    {
      hide Message;
      buffer.pos, buffer.last := 0, 0;
      var written := BuildAuth(login.username, login.password, buffer.data);
      if written.None? {
        Abandon();
        return false;
      }
      buffer.last := written.value;
      assert Held() == LoginWire(login);
      heard := ASKED;
      step := AuthWrite;
      return true;
    }

    /** Writes the request into the buffer, if the target has a wire form. */
    method BuildTheRequest() returns (written: Option<nat>)
      requires Valid() && Intended()
      modifies buffer.data
      ensures written.Some? <==> RequestOf(mode, target).Some?
      ensures written.Some? ==> 0 < written.value <= BUFFER_SIZE && buffer.data[..written.value] == request
    {
      hide Message, Intended, Unspecified, UdpRequest, Wire, AwaitsMethod, AwaitsStatus;
      if mode == Tcp {
        if target.port >= 0x1_0000 {
          return None;
        }
        assert WellFormed(target) ==> 3 + |Wire(target)| <= BUFFER_SIZE;
        hide WellFormed;
        written := BuildRequest(CONNECT, target, buffer.data);
        if written.Some? { RequestIs(Message(CONNECT, target)); }
      } else {
        UnspecifiedFits();
        written := BuildRequest(ASSOCIATE, Unspecified(), buffer.data);
        RequestIs(Message(ASSOCIATE, Unspecified()));
      }
    }

    lemma UnspecifiedFits()
      ensures WellFormed(Unspecified()) && 3 + |Wire(Unspecified())| <= BUFFER_SIZE
      ensures UdpRequest() == Some(Message(ASSOCIATE, Unspecified()))
    {
    }

    lemma RequestIs(wire: bytes)
      requires Intended() && RequestOf(mode, target) == Some(wire)
      ensures request == wire
    {
    }

    /** The server cleared the client. */
    method LoadRequest() returns (more: bool)
      requires Valid() && Intended() && Cleared(login, conn.input) && conn.output == Introduction(login, conn.input)
      modifies this`step, this`heard, buffer, buffer.data
      ensures more <==> RequestOf(mode, target).Some?
      ensures Valid() && Knows() && if more then step == RequestWrite else step == GaveUp
    {
      hide RequestOf, Introduction, Accepted, Cleared, AwaitsMethod, AwaitsStatus, Hello, LoginWire, CredentialsOk,
           Intended, ReplyWithin;
      heard := conn.input;
      buffer.pos, buffer.last := 0, 0;
      var written := BuildTheRequest();
      if written.None? {
        ClearedMaySay();
        Abandon();
        return false;
      }
      buffer.last := written.value;
      step := RequestWrite;
      assert Held() == request != [];
      assert Knows();
      hide Knows;
      return true;
    }

    lemma ClearedMaySay()
      requires Valid() && Cleared(login, conn.input) && conn.output == Introduction(login, conn.input)
      ensures MaySay(login, request, conn.input, conn.output)
    {
      hide RequestOf, LoginWire;
      PrefixOf(conn.output, request);
    }

    method WriteAuth() returns (more: bool)
      requires Valid() && Knows() && step == AuthWrite
      modifies this`step, buffer`pos, buffer`last, conn`output, conn`blocked
      ensures Valid() && Knows() && (more ==> step == AuthRead) && (!more ==> step == AuthWrite || step == GaveUp)
      ensures !more ==> Waits()
    {
      hide Message, Auth;
      var done, failed := Flush();
      if !done {
        if failed {
          KnowsMaySay();
          Abandon();
        }
        return false;
      }
      step := AuthRead;
      Empty();
      assert conn.input == heard + [];
      return true;
    }

    method ReadAuth() returns (more: bool)
      requires Valid() && AwaitsStatus() && Intended() && step == AuthRead
      modifies this`step, this`heard, buffer, buffer.data, conn`input, conn`dry, conn`receipts
      ensures Valid() && Knows() && (more ==> step == RequestWrite) && (!more ==> step == AuthRead || step == GaveUp)
      ensures !more ==> Waits()
    {
      hide Intended, MaySay, Accepted, LoginWire, Hello, Cleared, Introduction, CredentialsOk, RequestOf, ReplyWithin,
           AwaitsMethod;
      ghost var h := Held();
      var r := Read(2);
      assert conn.input == heard + h + Held()[|h|..] == heard + Held();
      if r != Ready {
        if r == Failed {
          KnowsMaySay();
          Abandon();
        }
        return false;
      }
      KnowsMaySay();
      var answer := buffer.data[..2];
      assert answer == Held();
      if AuthAccepted(answer) {
        assert answer == ADMITTED;
        AdmittedClears();
        more := LoadRequest();
      } else {
        Abandon();
        more := false;
      }
    }

    method WriteRequest() returns (more: bool)
      requires Valid() && Knows() && step == RequestWrite
      modifies this`step, buffer`pos, buffer`last, conn`output, conn`blocked
      ensures Valid() && Knows() && (more ==> step == ResponseRead)
              && (!more ==> step == RequestWrite || step == GaveUp)
      ensures !more ==> Waits()
    {
      hide Introduction, Cleared, RequestOf, MaySay, Accepted;
      var done, failed := Flush();
      if !done {
        if failed {
          KnowsMaySay();
          Abandon();
        }
        return false;
      }
      step := ResponseRead;
      Empty();
      assert conn.input == heard + [];
      return true;
    }

    /** Reads as far as the reply is known to reach; a whole accepting reply ends the handshake. `ready` is false
        when the datagram socket of UDP mode cannot be set up. */
    method ReadResponse(ready: bool) returns (more: bool)
      requires Valid() && Knows() && step == ResponseRead
      modifies this`step, buffer`last, buffer.data, conn`input, conn`dry, conn`receipts
      ensures Valid() && Knows() && (more ==> step == ResponseRead && buffer.last > old(buffer.last))
      ensures buffer.last <= BUFFER_SIZE
      ensures !more ==> Waits()
    {
      hide Introduction, Cleared, ResponseSize, ParseResponse, RequestOf, MaySay, Accepted;
      var content := buffer.data[..buffer.last];
      assert content == Held();
      var size := ResponseSize(content);
      if size.More? {
        more := ReadReply(size.n);
      } else if size.Bad? || ParseResponse(content).None? {
        KnowsMaySay();
        Abandon();
        more := false;
      } else {
        KnowsMaySay();
        ConcludesAccepted(content);
        if mode == Tcp || ready {
          step := Established;
        } else {
          Abandon();
        }
        more := false;
      }
    }

    lemma ConcludesAccepted(reply: bytes)
      requires Valid() && Cleared(login, heard) && conn.input == heard + reply && AcceptingReply(reply)
      requires conn.output == Introduction(login, heard) + request && request != []
      ensures Accepted(login, request, conn.input, conn.output)
    {
      hide AcceptingReply, Introduction;
      assert conn.input[|heard|..] == reply;
    }

    /** Octets asked for by an incomplete reply never reach beyond it. */
    lemma AsksWithin(h: bytes, new_: bytes)
      requires ResponseSize(h).More?
      ensures |h| < ResponseSize(h).n <= 262
      ensures |h + new_| <= ResponseSize(h).n && ResponseSize(h + new_).Done? ==> ResponseSize(h + new_).n == |h + new_|
    {
      ResponseIsExact();
      assert ResponseSize(h + new_).Done? ==> ResponseSize(h).n <= ResponseSize(h + new_).n <= |h + new_|;
    }

    method ReadReply(n: nat) returns (more: bool)
      requires Valid() && Knows() && step == ResponseRead && ResponseSize(Held()) == More(n)
      modifies this`step, buffer`last, buffer.data, conn`input, conn`dry, conn`receipts
      ensures Valid() && Knows() && (more ==> step == ResponseRead && buffer.last > old(buffer.last))
      ensures !more ==> Waits()
    {
      hide Introduction, Cleared, ResponseSize, RequestOf, MaySay, Accepted, AwaitsMethod, AwaitsStatus, Hello,
           LoginWire, CredentialsOk, Intended;
      ghost var h := Held();
      AsksWithin(h, []);
      var r := Read(n);
      ghost var new_ := Held()[|h|..];
      assert Held() == h + new_;
      assert conn.input == heard + h + new_ == heard + Held();
      AsksWithin(h, new_);
      if r == Failed {
        KnowsMaySay();
        Abandon();
      }
      return r == Ready;
    }

    /** One event of the handshake: steps on until it must wait, has failed, or is through. */
    method Process(ready: bool)
      requires Valid() && Knows() && Intended()
      modifies this`step, this`heard, buffer, buffer.data, conn
      ensures Valid() && Knows()
      ensures MaySay(login, request, conn.input, conn.output)
      ensures step == Established ==> Accepted(login, request, conn.input, conn.output)
      ensures Waits()
    {
      hide MaySay, Accepted, Intended, AwaitsMethod, AwaitsStatus, Introduction, Cleared, Hello;
      var more := true;
      while more
        invariant Valid() && Knows() && (!more ==> Waits())
        decreases more, Rank(step), BUFFER_SIZE - buffer.last
      {
        match step
        case GreetingWrite => more := WriteGreeting();
        case MethodRead => more := ReadMethod();
        case AuthWrite => more := WriteAuth();
        case AuthRead => more := ReadAuth();
        case RequestWrite => more := WriteRequest();
        case ResponseRead => more := ReadResponse(ready);
        case Established => more := false;
        case GaveUp => more := false;
      }
      KnowsMaySay();
      if step == Established { IfEstablished(); }
    }

    lemma IfEstablished()
      requires Valid() && Knows() && step == Established
      ensures Accepted(login, request, conn.input, conn.output)
    {
    }
  }

  function Rank(s: Step): nat {
    match s
    case GreetingWrite => 6
    case MethodRead => 5
    case AuthWrite => 4
    case AuthRead => 3
    case RequestWrite => 2
    case ResponseRead => 1
    case _ => 0
  }
}
