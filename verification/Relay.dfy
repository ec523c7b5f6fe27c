/** The relay between two connections: bounded reads, partial sends, and what a closed session has delivered. */
module Relay {
  import opened Bytes

  // ----- the bounds

  const MAX_LOOPS := 16
  const MIN_BYTES := 1024 * 1024
  const MAX_BYTES := 4 * 1024 * 1024

  /** size_t arithmetic. */
  const SIZE_WORD := 0x1_0000_0000_0000_0000

  function Limit(bufferSize: nat): (r: nat)
    ensures 0x10_0000 <= r <= 0x40_0000
    ensures 0x8000 <= bufferSize <= 0x2_0000 ==> r == 32 * bufferSize
    ensures bufferSize < 0x8000 ==> r == 0x10_0000
    ensures 0x2_0000 < bufferSize < 0x800_0000_0000_0000 ==> r == 0x40_0000
    ensures bufferSize >= 0x800_0000_0000_0000 ==>
              var n := 32 * bufferSize % 0x1_0000_0000_0000_0000;
              if n < 0x10_0000 then r == 0x10_0000 else if n > 0x40_0000 then r == 0x40_0000 else r == n
  {
    var limit := bufferSize * 32 % SIZE_WORD;
    if limit < MIN_BYTES then MIN_BYTES else if limit > MAX_BYTES then MAX_BYTES else limit
  }

  predicate ShouldContinue(loops: nat, bytes_: nat, limit: nat) { loops < MAX_LOOPS && bytes_ < limit }

  function ReadSize(available: nat, bytes_: nat, limit: nat): (r: nat)
    ensures r <= available && (bytes_ <= limit ==> bytes_ + r <= limit)
    ensures r == available || bytes_ + r == limit || (r == 0 && bytes_ > limit)
    ensures r == 0 <==> available == 0 || bytes_ >= limit
  {
    if bytes_ >= limit then 0
    else
      var remaining := limit - bytes_;
      if available < remaining then available else remaining
  }

  // ----- connections and buffers

  const AGAIN := -2
  const ERROR := -1

  /** A connection, with everything it gave and took so far. Each transfer may be partial, fail or not be possible now;
      on a sticky connection a send that was not possible stays so until the next event. */
  class Conn {
    const sticky: bool
    var input: bytes
    var output: bytes
    var blocked: bool
    /** The last receive found nothing for now. */
    var dry: bool
    /** How many receives gave something. */
    ghost var receipts: nat
    var eof: bool

    constructor (sticky: bool)
      ensures this.sticky == sticky && input == [] && output == [] && !blocked && !dry && !eof
    {
      this.sticky := sticky;
      input, output, blocked, dry, eof := [], [], false, false, false;
      receipts := 0;
    }

    method Send(data: array<byte>, from: nat, to: nat) returns (n: int)
      requires from < to <= data.Length
      modifies this`output, this`blocked
      ensures n == AGAIN || n == ERROR || 0 < n <= to - from
      ensures output == old(output) + (if n > 0 then data[from..from + n] else [])
      ensures n == AGAIN ==> blocked
      ensures sticky && old(blocked) ==> n == AGAIN
      ensures old(blocked) ==> blocked
    {
      n := *;
      if (sticky && blocked) || !(n == ERROR || 0 < n <= to - from) {
        n := AGAIN;
      }
      if n > 0 {
        output := output + data[from..from + n];
      }
      blocked := blocked || n == AGAIN;
    }

    /** Up to `room` octets into the buffer; 0 is the end of the stream. */
    method Recv(data: array<byte>, at: nat, room: nat) returns (n: int)
      requires 0 < room && at + room <= data.Length
      modifies this`input, this`dry, this`receipts, data
      ensures n == AGAIN || n == ERROR || 0 <= n <= room
      ensures dry <==> n == AGAIN
      ensures receipts == old(receipts) + (if n > 0 then 1 else 0)
      ensures data[..at] == old(data[..at])
      ensures input == old(input) + (if n > 0 then data[at..at + n] else [])
    {
      n := *;
      if !(n == ERROR || 0 <= n <= room) {
        n := AGAIN;
      }
      dry := n == AGAIN;
      if n > 0 {
        receipts := receipts + 1;
        for i := 0 to n
          invariant data[..at] == old(data[..at]) && input == old(input) && !dry && receipts == old(receipts) + 1
        {
          data[at + i] := *;
        }
        input := input + data[at..at + n];
      }
    }
  }

  class Buffer {
    const data: array<byte>
    var pos: nat
    var last: nat

    ghost predicate Valid()
      reads this
    {
      pos <= last <= data.Length
    }

    ghost function Pending(): bytes
      requires Valid()
      reads this, data
    {
      data[pos..last]
    }

    constructor (size: nat)
      requires size > 0
      ensures pos == last == 0 && fresh(data) && data.Length == size
    {
      data := new byte[size](_ => 0);
      pos, last := 0, 0;
    }
  }

  // ----- one direction

  datatype Outcome = Done | Blocked | Failed

  /** One send from the buffer: what it took moved from the front of the buffer to the end of the output. */
  method SendSome(dst: Conn, buf: Buffer) returns (n: int)
    requires buf.Valid() && buf.pos < buf.last
    modifies dst`output, dst`blocked, buf`pos
    ensures n == AGAIN || n == ERROR || n > 0
    ensures |dst.output| == |old(dst.output)| + (if n > 0 then n else 0) && (n <= 0 ==> dst.output == old(dst.output))
    ensures buf.Valid() && buf.pos == old(buf.pos) + (if n > 0 then n else 0)
    ensures dst.output + buf.Pending() == old(dst.output + buf.Pending())
    ensures n == AGAIN ==> dst.blocked
    ensures dst.sticky && old(dst.blocked) ==> n == AGAIN
    ensures old(dst.blocked) ==> dst.blocked && (dst.sticky ==> dst.output == old(dst.output))
  {
    ghost var out, all := dst.output, buf.data[..buf.last];
    n := dst.Send(buf.data, buf.pos, buf.last);
    if n > 0 {
      assert buf.data[buf.pos..buf.pos + n] == all[buf.pos..buf.pos + n];
      Regroup(out, all, buf.pos, n);
      buf.pos := buf.pos + n;
    }
    assert buf.data[..buf.last] == all && buf.Pending() == all[buf.pos..];
  }

  /** Sends what is buffered, as far as the connection takes it. */
  method Flush(dst: Conn, buf: Buffer) returns (r: Outcome, moved: bool)
    requires buf.Valid()
    modifies dst`output, dst`blocked, buf`pos
    ensures buf.Valid() && dst.output + buf.Pending() == old(dst.output + buf.Pending())
    ensures r == Done <==> buf.pos == buf.last
    ensures r == Failed ==> old(buf.pos) < buf.last && !(dst.sticky && old(dst.blocked))
    ensures dst.sticky && old(dst.blocked) ==> buf.pos == old(buf.pos)
    ensures |dst.output| >= |old(dst.output)| && (moved <==> |dst.output| > |old(dst.output)|)
    ensures !moved ==> dst.output == old(dst.output)
    ensures r == Blocked ==> dst.blocked
    ensures old(dst.blocked) ==> dst.blocked && (dst.sticky ==> dst.output == old(dst.output))
  {
    moved := false;
    ghost var total := dst.output + buf.Pending();
    while buf.pos < buf.last
      invariant buf.Valid() && dst.output + buf.Pending() == total
      invariant |dst.output| >= |old(dst.output)| && (moved <==> |dst.output| > |old(dst.output)|)
      invariant !moved ==> dst.output == old(dst.output)
      invariant old(dst.blocked) ==> dst.blocked && (dst.sticky ==> dst.output == old(dst.output))
      decreases buf.last - buf.pos
    {
      var n := SendSome(dst, buf);
      if n == AGAIN {
        return Blocked, moved;
      }
      if n == ERROR {
        return Failed, moved;
      }
      moved := true;
    }
    r := Done;
  }

  lemma Regroup(out: bytes, all: bytes, pos: nat, n: nat)
    requires pos + n <= |all|
    ensures (out + all[pos..pos + n]) + all[pos + n..] == out + all[pos..]
  {
    assert all[pos..] == all[pos..pos + n] + all[pos + n..];
  }

  lemma Join(a: bytes, b: bytes, c: bytes)
    ensures (a + b) + c == a + (b + c)
  {
  }

  /** With no source, as for bytes that were pending before the relay began, only the sending half runs. */
  method ProcessPending(dst: Conn, buf: Buffer) returns (ok: bool, moved: bool)
    requires buf.Valid()
    modifies dst`output, dst`blocked, buf`pos, buf`last
    ensures buf.Valid() && dst.output + buf.Pending() == old(dst.output + buf.Pending())
    ensures ok && buf.pos < buf.last ==> dst.blocked
    ensures ok && buf.pos == buf.last ==> buf.pos == 0
    ensures !ok ==> old(buf.pos < buf.last) && !(dst.sticky && old(dst.blocked))
    ensures old(buf.pos == buf.last) ==> buf.pos == buf.last
    ensures dst.sticky && old(dst.blocked && buf.pos < buf.last) ==>
            buf.pos == old(buf.pos) && buf.last == old(buf.last)
    ensures |dst.output| >= |old(dst.output)| && (moved <==> |dst.output| > |old(dst.output)|)
    ensures !moved ==> dst.output == old(dst.output)
    ensures old(dst.blocked) ==> dst.blocked && (dst.sticky ==> dst.output == old(dst.output))
  {
    var r, sent := Flush(dst, buf);
    if r != Done {
      return r == Blocked, sent;
    }
    buf.pos := 0;
    buf.last := 0;
    return true, sent;
  }

  /** One read into the emptied buffer; the end of the stream and errors both end the source. */
  method ReadInto(src: Conn, buf: Buffer, available: nat) returns (n: nat)
    requires buf.pos == buf.last == 0 && 0 < available <= buf.data.Length && !src.eof
    modifies src`input, src`dry, src`receipts, src`eof, buf`last, buf.data
    ensures buf.Valid() && n == buf.last <= available && buf.pos == 0 && |buf.Pending()| == n
    ensures src.input == old(src.input) + buf.Pending()
    ensures n == 0 <==> src.eof || src.dry
    ensures src.receipts == old(src.receipts) + (if n > 0 then 1 else 0)
    ensures n > 0 ==> !src.eof
  {
    var m := src.Recv(buf.data, 0, available);
    if m == 0 || m == ERROR {
      src.eof := true;
    }
    n := if m > 0 then m else 0;
    buf.last := n;
  }

  /** What a turn tells the loop: read again, wait for an event, or give up. */
  datatype Turned = Again | Wait | Broken

  /** One turn of the relay loop: send what is buffered, then read once if that is allowed. */
  method Turn(src: Conn, dst: Conn, buf: Buffer, ready: bool, loops: nat, count: nat, limit: nat)
    returns (r: Turned, moved: bool, ghost more: bytes)
    requires buf.Valid() && src != dst && count <= limit
    modifies src`input, src`dry, src`receipts, src`eof, dst`output, dst`blocked, buf`pos, buf`last, buf.data
    ensures buf.Valid() && src.input == old(src.input) + more && |more| == |src.input| - |old(src.input)|
    ensures dst.output + buf.Pending() == old(dst.output + buf.Pending()) + more
    ensures count + |more| <= limit && (r == Again <==> more != [])
    ensures r == Again ==> loops < MAX_LOOPS && src.eof == old(src.eof) && buf.last == |more|
    ensures old(src.eof) ==> src.eof && more == []
    ensures r == Wait && buf.pos < buf.last ==> dst.blocked
    ensures r == Wait && buf.pos == buf.last ==>
            src.eof || src.dry || !ready || loops >= MAX_LOOPS || count == limit || buf.data.Length == 0
    ensures r == Again ==> !src.dry
    ensures src.receipts == old(src.receipts) + (if r == Again then 1 else 0)
    ensures old(buf.pos == buf.last) ==> r != Broken && (r == Wait ==> buf.pos == buf.last)
    ensures r == Broken ==> !(dst.sticky && old(dst.blocked))
    ensures |dst.output| >= |old(dst.output)| && (moved <==> |dst.output| > |old(dst.output)| || more != [])
    ensures !moved ==> dst.output == old(dst.output)
    ensures old(dst.blocked) ==> dst.blocked && (dst.sticky ==> dst.output == old(dst.output))
  {
    hide Limit;
    more := [];
    var ok: bool;
    ghost var total := dst.output + buf.Pending();
    ok, moved := ProcessPending(dst, buf);
    assert total + [] == total;
    if !ok || buf.pos < buf.last {
      hide Buffer.Pending;
      return if ok then Wait else Broken, moved, [];
    }
    assert buf.Pending() == [] && dst.output == total;
    hide Buffer.Pending;
    if src.eof || !ready || !ShouldContinue(loops, count, limit) {
      return Wait, moved, [];
    }
    var available := ReadSize(buf.data.Length, count, limit);
    if available == 0 {
      return Wait, moved, [];
    }
    var n := ReadInto(src, buf, available);
    more := buf.Pending();
    return if n == 0 then Wait else Again, moved || n > 0, more;
  }

  /** Reading stops after this many reads and octets: nothing more is announced, or a bound is met. */
  predicate StopsAt(readable: nat -> bool, loops: nat, count: int, bufferSize: nat) {
    !readable(loops) || loops == 16 || count == Limit(bufferSize)
  }

  /** A direction is left only for cause: what is buffered waits for a blocked connection; with nothing buffered the
      source has ended, has nothing for now, or reading must stop. */
  twostate predicate Rested(src: Conn, dst: Conn, buf: Buffer, bufferSize: nat, readable: nat -> bool)
    reads src`eof, src`dry, src`input, src`receipts, dst`blocked, buf
  {
    && src.receipts >= old(src.receipts)
    && if buf.pos < buf.last then dst.blocked
       else
         || src.eof || src.dry || buf.data.Length == 0
         || StopsAt(readable, src.receipts - old(src.receipts), |src.input| - |old(src.input)|, bufferSize)
  }

  /** Relays src to dst through the buffer until nothing more can be moved now, or a bound is met. */
  method ProcessDirection(src: Conn, dst: Conn, buf: Buffer, bufferSize: nat, readable: nat -> bool)
    returns (ok: bool, moved: bool, loops: nat, ghost got: bytes)
    requires buf.Valid() && src != dst
    modifies src`input, src`dry, src`receipts, src`eof, dst`output, dst`blocked, buf`pos, buf`last, buf.data
    ensures buf.Valid() && src.input == old(src.input) + got && |got| <= Limit(bufferSize)
    ensures src.receipts == old(src.receipts) + loops && loops <= 16
    ensures dst.output + buf.Pending() == old(dst.output + buf.Pending()) + got
    ensures old(src.eof) ==> src.eof && got == []
    ensures ok ==> Rested(src, dst, buf, bufferSize, readable)
    ensures old(src.eof && buf.pos == buf.last) ==> ok && buf.pos == buf.last
    ensures !ok ==> !(dst.sticky && old(dst.blocked))
    ensures moved <==> |dst.output| > |old(dst.output)| || got != []
    ensures old(dst.blocked) ==> dst.blocked && (dst.sticky ==> dst.output == old(dst.output))
  {
    hide Buffer.Pending;
    var limit := Limit(bufferSize);
    var count := 0;
    loops, moved, got := 0, false, [];
    ghost var total, input := dst.output + buf.Pending(), src.input;
    var r := Again;
    while r == Again
      invariant buf.Valid() && |got| == count <= limit && loops <= MAX_LOOPS
      invariant src.receipts == old(src.receipts) + loops
      invariant old(src.eof && buf.pos == buf.last) ==> r != Broken && buf.pos == buf.last
      invariant r == Broken ==> !(dst.sticky && old(dst.blocked))
      invariant r == Wait && buf.pos == buf.last ==>
                src.eof || src.dry || buf.data.Length == 0 || StopsAt(readable, loops, count, bufferSize)
      invariant moved <==> |dst.output| > |old(dst.output)| || got != []
      invariant |dst.output| >= |old(dst.output)| && (!moved ==> dst.output == old(dst.output))
      invariant src.input == input + got && dst.output + buf.Pending() == total + got
      invariant old(src.eof) ==> src.eof && got == []
      invariant r == Wait && buf.pos < buf.last ==> dst.blocked
      invariant old(dst.blocked) ==> dst.blocked && (dst.sticky ==> dst.output == old(dst.output))
      decreases r == Again, MAX_LOOPS - loops
    {
      var sent: bool;
      ghost var more: bytes;
      r, sent, more := Turn(src, dst, buf, readable(loops), loops, count, limit);
      moved := moved || sent;
      Join(total, got, more);
      Join(input, got, more);
      got := got + more;
      if r == Again {
        count := count + buf.last;
        loops := loops + 1;
      }
    }
    ok := r == Wait;
  }
}
