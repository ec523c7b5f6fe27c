/** Target addresses and their octets on the wire: type, host, port. */
module Address {
  import opened Bytes

  const IPV4: byte := 1
  const DOMAIN: byte := 3
  const IPV6: byte := 4

  const MAX_WIRE := 259

  datatype Target = Target(kind: byte, host: bytes, port: nat)

  /** An address that has a wire form. */
  predicate WellFormed(t: Target) {
    && t.port < 0x1_0000
    && ((t.kind == IPV4 && |t.host| == 4) || (t.kind == IPV6 && |t.host| == 16)
       || (t.kind == DOMAIN && 1 <= |t.host| <= 255))
  }

  /** The octets before the host: the type, and the length of a name. */
  function Lead(t: Target): (s: bytes)
    requires |t.host| <= 255
    ensures |s| == if t.kind == DOMAIN then 2 else 1
  {
    if t.kind == DOMAIN then [t.kind, |t.host|] else [t.kind]
  }

  function Wire(t: Target): (s: bytes)
    requires |t.host| <= 255 && t.port < 0x1_0000
    ensures |s| == (if t.kind == DOMAIN then 2 else 1) + |t.host| + 2
  {
    Lead(t) + t.host + PutU16(t.port)
  }

  /** The whole length an address announces in its first octets, if they announce one. */
  function WireLength(b: bytes): (r: Option<nat>)
    ensures r.Some? ==> r.value <= MAX_WIRE
  {
    if b == [] then None
    else if b[0] == IPV4 then Some(7)
    else if b[0] == IPV6 then Some(19)
    else if b[0] == DOMAIN && |b| >= 2 && b[1] != 0 then Some(4 + (b[1] as nat))
    else None
  }

  /** Reads an address off the front; None if it is malformed or incomplete. */
  function Parse(b: bytes): (r: Option<(Target, nat)>)
    ensures r.Some? ==> WireLength(b) == Some(r.value.1) && r.value.1 <= |b|
    ensures r.None? <==> WireLength(b).None? || |b| < WireLength(b).value
  {
    var n := WireLength(b);
    if n.None? || |b| < n.value then None
    else
      var from := if b[0] == DOMAIN then 2 else 1;
      Some((Target(b[0], b[from..n.value - 2], U16(b[n.value - 2], b[n.value - 1])), n.value))
  }

  /** What was parsed is exactly what stands on the wire. */
  lemma ParseSound(b: bytes)
    requires Parse(b).Some?
    ensures var (t, n) := Parse(b).value;
            WellFormed(t) && n == |Wire(t)| && b[..n] == Wire(t)
  {
    hide U16, PutU16;
    var (t, n) := Parse(b).value;
    var from := if b[0] == DOMAIN then 2 else 1;
    assert b[..n] == b[..from] + b[from..n - 2] + b[n - 2..n];
    assert b[..from] == Lead(t);
    U16Unique(b[n - 2], b[n - 1]);
    assert b[n - 2..n] == [b[n - 2], b[n - 1]];
  }

  /** A well-formed address is read back from its wire form, whatever follows. */
  lemma ParseWire(t: Target, rest: bytes)
    requires WellFormed(t)
    ensures Parse(Wire(t) + rest) == Some((t, |Wire(t)|))
  {
    hide U16, PutU16;
    var b, n := Wire(t) + rest, |Wire(t)|;
    var from := if t.kind == DOMAIN then 2 else 1;
    assert b[from..n - 2] == t.host;
    assert b[n - 2] == PutU16(t.port)[0] && b[n - 1] == PutU16(t.port)[1];
  }

  /** More octets do not change what was read. */
  lemma ParseStable(b: bytes, more: bytes)
    requires Parse(b).Some?
    ensures Parse(b + more) == Parse(b)
  {
    hide U16, PutU16;
    ParseSound(b);
    var (t, n) := Parse(b).value;
    assert b + more == Wire(t) + (b[n..] + more);
    ParseWire(t, b[n..] + more);
  }
}
