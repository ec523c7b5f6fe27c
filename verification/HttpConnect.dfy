/** HTTP CONNECT requests (RFC 9110 section 9.3.6): finding the header, the authority and the port. */
module HttpConnect {
  import opened Address
  import opened Bytes

  const SPACE: byte := 32
  const COLON: byte := 58
  const OPEN_BRACKET: byte := 91
  const CLOSE_BRACKET: byte := 93

  /** "CONNECT " and "HTTP/1." */
  const METHOD: bytes := [67, 79, 78, 78, 69, 67, 84, 32]
  const VERSION: bytes := [72, 84, 84, 80, 47, 49, 46]

  /** The other methods told apart from noise. */
  const OTHERS: seq<bytes> :=
    [[71, 69, 84, 32], [80, 79, 83, 84, 32], [72, 69, 65, 68, 32], [80, 85, 84, 32], [68, 69, 76, 69, 84, 69, 32],
     [79, 80, 84, 73, 79, 78, 83, 32], [80, 65, 84, 67, 72, 32], [84, 82, 65, 67, 69, 32]]

  datatype Parsed = Ok(addr: Target, n: nat) | NeedMore(n: nat) | Error | NotAllowed

  // ----- the first blank line

  predicate BlankLineAt(b: bytes, i: nat) {
    i + 4 <= |b| && b[i] == CR && b[i + 1] == LF && b[i + 2] == CR && b[i + 3] == LF
  }

  function HeaderEndFrom(b: bytes, i: nat): (r: Option<nat>)
    ensures r.Some? ==>
              && i + 4 <= r.value <= |b| && BlankLineAt(b, r.value - 4)
              && forall j :: i <= j < r.value - 4 ==> !BlankLineAt(b, j)
    ensures r.None? ==> forall j :: i <= j ==> !BlankLineAt(b, j)
    decreases |b| - i
  {
    if |b| < i + 4 then None else if BlankLineAt(b, i) then Some(i + 4) else HeaderEndFrom(b, i + 1)
  }

  function HeaderEnd(b: bytes): Option<nat> { HeaderEndFrom(b, 0) }

  method FindHeaderEnd(b: bytes) returns (r: Option<nat>)
    ensures r == HeaderEnd(b)
  {
    var i := 0;
    while i + 3 < |b|
      invariant i <= |b| && HeaderEndFrom(b, i) == HeaderEnd(b)
      decreases |b| - i
    {
      if b[i] == CR && b[i + 1] == LF && b[i + 2] == CR && b[i + 3] == LF {
        return Some(i + 4);
      }
      i := i + 1;
    }
    r := None;
  }

  /** The first blank line is where it is, whatever stands behind it. */
  lemma HeaderEndStable(b: bytes, more: bytes)
    requires HeaderEnd(b).Some?
    ensures HeaderEnd(b + more) == HeaderEnd(b) == HeaderEnd(b[..HeaderEnd(b).value])
  {
    var n := HeaderEnd(b).value;
    assert BlankLineAt(b + more, n - 4) && BlankLineAt(b[..n], n - 4);
    forall j | 0 <= j < n - 4 ensures !BlankLineAt(b + more, j) && !BlankLineAt(b[..n], j) {
      assert !BlankLineAt(b, j);
    }
    OnlyEnd(b + more, n);
    OnlyEnd(b[..n], n);
  }

  lemma OnlyEnd(b: bytes, n: nat)
    requires 4 <= n && BlankLineAt(b, n - 4) && forall j :: 0 <= j < n - 4 ==> !BlankLineAt(b, j)
    ensures HeaderEnd(b) == Some(n)
  {
  }

  // ----- the port

  predicate Digit(c: byte) { 48 <= c <= 57 }

  function Times10(x: nat, c: byte): Option<nat>
    requires Digit(c)
  {
    var v := x * 10 + (c - 48);
    if v == 0 || v > 65535 then None else Some(v)
  }

  /** The accumulator after the digits of s. */
  function Value(s: bytes): Option<nat> {
    if s == [] then Some(0)
    else
      var x, c := Value(s[..|s| - 1]), s[|s| - 1];
      if x.None? || !Digit(c) then None else Times10(x.value, c)
  }

  function Port(s: bytes): Option<nat> { if s == [] then None else Value(s) }

  method ParsePort(s: bytes) returns (r: Option<nat>)
    ensures r == Port(s)
  {
    if |s| == 0 {
      return None;
    }
    var value: nat := 0;
    for i := 0 to |s|
      invariant Value(s[..i]) == Some(value)
    {
      assert s[..i + 1][..i] == s[..i];
      if s[i] < 48 || s[i] > 57 {
        FailsForGood(s, i + 1);
        return None;
      }
      value := value * 10 + (s[i] as int - 48);
      if value == 0 || value > 65535 {
        FailsForGood(s, i + 1);
        return None;
      }
    }
    assert s[..|s|] == s;
    r := Some(value);
  }

  lemma {:induction false} FailsForGood(s: bytes, i: nat)
    requires i <= |s| && Value(s[..i]).None?
    ensures Value(s).None?
    decreases |s| - i
  {
    if i == |s| {
      assert s[..i] == s;
    } else {
      assert s[..i + 1][..i] == s[..i];
      FailsForGood(s, i + 1);
    }
  }

  /** The decimal digits of a number, without leading zeros. */
  function Decimal(v: nat): (s: bytes)
    ensures s != [] && forall i :: 0 <= i < |s| ==> Digit(s[i])
  {
    if v < 10 then [48 + v] else Decimal(v / 10) + [48 + v % 10]
  }

  /** A port is accepted exactly when it is the canonical decimal of a number from 1 to 65535, and is that number. */
  lemma {:induction false} PortIsCanonical(s: bytes, v: nat)
    ensures Port(s) == Some(v) <==> 1 <= v <= 65535 && s == Decimal(v)
  {
    if s == [] {
    } else if |s| == 1 {
      assert s[..0] == [];
      OneDigit(s[0], v);
      assert s == [s[0]];
    } else {
      var t, c := s[..|s| - 1], s[|s| - 1];
      assert s == t + [c];
      PortIsCanonical(t, v / 10);
      if Port(s) == Some(v) {
        var x := Value(t).value;
        PortIsCanonical(t, x);
        Digits(x, c, v);
      }
      if 1 <= v <= 65535 && s == Decimal(v) {
        LongNumber(v);
        assert t == Decimal(v)[..|s| - 1] == Decimal(v / 10) && c == 48 + v % 10;
      }
    }
  }

  lemma OneDigit(c: byte, v: nat)
    ensures Port([c]) == Some(v) <==> 1 <= v <= 65535 && [c] == Decimal(v)
  {
    assert [c][..0] == [] && Value([c][..0]) == Some(0);
    assert Port([c]) == if Digit(c) then Times10(0, c) else None;
    LongNumber(v);
    if v < 10 { assert Decimal(v) == [48 + v] && Decimal(v)[0] == 48 + v; }
  }

  lemma LongNumber(v: nat)
    ensures v >= 10 <==> |Decimal(v)| > 1
    ensures v >= 10 ==> Decimal(v) == Decimal(v / 10) + [48 + v % 10]
  {
  }

  lemma Digits(x: nat, c: byte, v: nat)
    requires Digit(c) && v == x * 10 + (c - 48)
    ensures v / 10 == x && v % 10 == c - 48
  {
  }

  // ----- the request line

  /** The first CR LF from i on, or the last place where none could start any more. */
  function LineEndFrom(b: bytes, i: nat): (r: nat)
    requires i <= |b|
    ensures i <= r <= |b|
    ensures forall j :: i <= j < r ==> !(j + 1 < |b| && b[j] == CR && b[j + 1] == LF)
    ensures r + 1 < |b| ==> b[r] == CR && b[r + 1] == LF
    decreases |b| - i
  {
    if i + 1 >= |b| || (b[i] == CR && b[i + 1] == LF) then i else LineEndFrom(b, i + 1)
  }

  /** The first place in [i, end) where c stands, or end. */
  function Seek(b: bytes, c: byte, i: nat, end: nat): (r: nat)
    requires i <= end <= |b|
    ensures i <= r <= end && (r < end ==> b[r] == c) && forall j :: i <= j < r ==> b[j] != c
    decreases end - i
  {
    if i == end || b[i] == c then i else Seek(b, c, i + 1, end)
  }

  /** The place behind the last c in [from, end), or from. */
  function SeekBack(b: bytes, c: byte, from: nat, end: nat): (r: nat)
    requires from <= end <= |b|
    ensures from <= r <= end && (r > from ==> b[r - 1] == c) && forall j :: r <= j < end ==> b[j] != c
    decreases end
  {
    if end == from || b[end - 1] == c then end else SeekBack(b, c, from, end - 1)
  }

  predicate At(b: bytes, i: nat, s: bytes) { i + |s| <= |b| && b[i..i + |s|] == s }

  predicate HasPrefix(b: bytes, p: bytes) {
    if |b| > |p| then b[..|p|] == p else b == p[..|b|]
  }

  predicate LooksLikeHttp(b: bytes) {
    b != [] && (HasPrefix(b, METHOD) || exists k :: 0 <= k < |OTHERS| && HasPrefix(b, OTHERS[k]))
  }

  /** inet_pton for both families, on the text up to its first NUL. */
  datatype Numeric = Numeric(v4: bytes -> Option<bytes>, v6: bytes -> Option<bytes>)

  ghost predicate Sized(p: Numeric) {
    && (forall s :: p.v4(s).Some? ==> |p.v4(s).value| == 4)
    && (forall s :: p.v6(s).Some? ==> |p.v6(s).value| == 16)
  }

  function CString(s: bytes): bytes { s[..Seek(s, 0, 0, |s|)] }

  /** The address of a host: a literal of either family if it is one, else a name. */
  function FillHost(p: Numeric, host: bytes, port: nat): Option<Target> {
    if host == [] || |host| > 255 then None
    else if |host| <= 16 && p.v4(CString(host)).Some? then Some(Target(IPV4, p.v4(CString(host)).value, port))
    else if |host| <= 46 && p.v6(CString(host)).Some? then Some(Target(IPV6, p.v6(CString(host)).value, port))
    else Some(Target(DOMAIN, host, port))
  }

  /** Where host and port stand in the authority [from, end). */
  datatype Authority = Split(host: nat, hostEnd: nat, port: nat) | NoAuthority

  function Divide(b: bytes, from: nat, end: nat): (r: Authority)
    requires from < end <= |b|
    ensures r.Split? ==> from <= r.host <= r.hostEnd <= r.port <= end
  {
    if b[from] == OPEN_BRACKET then
      var close := Seek(b, CLOSE_BRACKET, from + 1, end);
      if close == end || close + 1 >= end || b[close + 1] != COLON then NoAuthority
      else Split(from + 1, close, close + 2)
    else
      var behind := SeekBack(b, COLON, from, end);
      if behind == from || behind == end then NoAuthority else Split(from, behind - 1, behind)
  }

  function AddressOf(p: Numeric, b: bytes, a: Authority, end: nat): Option<Target>
    requires a.Split? ==> a.host <= a.hostEnd <= a.port <= end <= |b|
  {
    if a.NoAuthority? then None
    else
      var port := Port(b[a.port..end]);
      if port.None? then None else FillHost(p, b[a.host..a.hostEnd], port.value)
  }

  /** The request line, ending at `end`, of a header of n octets. */
  function ParseLine(p: Numeric, b: bytes, end: nat, n: nat): Parsed
    requires end <= |b|
  {
    if end < 17 then Error
    else if !At(b, 0, METHOD) then (if LooksLikeHttp(b) then NotAllowed else Error)
    else
      var targetEnd := Seek(b, SPACE, 8, end);
      if targetEnd == end || targetEnd == 8 then Error
      else if end - (targetEnd + 1) < 8 || !At(b, targetEnd + 1, VERSION) then Error
      else
        match AddressOf(p, b, Divide(b, 8, targetEnd), targetEnd)
        case Some(t) => Ok(t, n)
        case None => Error
  }

  function ParseConnect(p: Numeric, b: bytes): Parsed {
    match HeaderEnd(b)
    case None => NeedMore(|b| + 1)
    case Some(n) => ParseLine(p, b, LineEndFrom(b[..n], 0), n)
  }

  // ----- the scanning loops

  method FindSpace(b: bytes, from: nat, end: nat) returns (r: nat)
    requires from <= end <= |b|
    ensures r == Seek(b, SPACE, from, end)
  {
    r := from;
    while r < end
      invariant from <= r <= end && Seek(b, SPACE, r, end) == Seek(b, SPACE, from, end)
    {
      if b[r] == SPACE {
        return;
      }
      r := r + 1;
    }
  }

  method FindLineEnd(b: bytes) returns (r: nat)
    ensures r == LineEndFrom(b, 0)
  {
    r := 0;
    while r + 1 < |b|
      invariant r <= |b| && LineEndFrom(b, r) == LineEndFrom(b, 0)
    {
      if b[r] == CR && b[r + 1] == LF {
        break;
      }
      r := r + 1;
    }
  }

  method DivideAuthority(b: bytes, from: nat, end: nat) returns (r: Authority)
    requires from < end <= |b|
    ensures r == Divide(b, from, end)
  {
    if b[from] == OPEN_BRACKET {
      var close := from + 1;
      while close < end && b[close] != CLOSE_BRACKET
        invariant from + 1 <= close <= end
        invariant Seek(b, CLOSE_BRACKET, close, end) == Seek(b, CLOSE_BRACKET, from + 1, end)
      {
        close := close + 1;
      }
      if close == end || close + 1 >= end || b[close + 1] != COLON {
        return NoAuthority;
      }
      return Split(from + 1, close, close + 2);
    }
    var behind := end;
    while behind > from && b[behind - 1] != COLON
      invariant from <= behind <= end && SeekBack(b, COLON, from, behind) == SeekBack(b, COLON, from, end)
    {
      behind := behind - 1;
    }
    if behind == from || behind == end {
      return NoAuthority;
    }
    return Split(from, behind - 1, behind);
  }

  method ParseConnectNow(p: Numeric, b: bytes) returns (r: Parsed)
    ensures r == ParseConnect(p, b)
  {
    hide Divide, Port, FillHost, LooksLikeHttp, Seek, HeaderEndFrom, LineEndFrom;
    var headerEnd := FindHeaderEnd(b);
    if headerEnd.None? {
      return NeedMore(|b| + 1);
    }
    var n := headerEnd.value;
    var end := FindLineEnd(b[..n]);
    if end < 17 {
      return Error;
    }
    if b[..8] != METHOD {
      return if LooksLikeHttp(b) then NotAllowed else Error;
    }
    var targetEnd := FindSpace(b, 8, end);
    if targetEnd == end || targetEnd == 8 {
      return Error;
    }
    var version := targetEnd + 1;
    if end - version < 8 || b[version..version + 7] != VERSION {
      return Error;
    }
    var a := DivideAuthority(b, 8, targetEnd);
    if a.NoAuthority? {
      return Error;
    }
    var port := ParsePort(b[a.port..targetEnd]);
    if port.None? {
      return Error;
    }
    var t := FillHost(p, b[a.host..a.hostEnd], port.value);
    return if t.Some? then Ok(t.value, n) else Error;
  }

  // ----- the answer depends on the header alone

  lemma {:induction false} SeekSame(b: bytes, d: bytes, c: byte, i: nat, end: nat)
    requires i <= end <= |b| && end <= |d| && b[..end] == d[..end]
    ensures Seek(b, c, i, end) == Seek(d, c, i, end)
    decreases end - i
  {
    if i < end {
      assert b[i] == b[..end][i] && d[i] == d[..end][i];
      SeekSame(b, d, c, i + 1, end);
    }
  }

  lemma {:induction false} SeekBackSame(b: bytes, d: bytes, c: byte, from: nat, end: nat)
    requires from <= end <= |b| && end <= |d| && b[..end] == d[..end]
    ensures SeekBack(b, c, from, end) == SeekBack(d, c, from, end)
    decreases end
  {
    if from < end {
      assert b[end - 1] == b[..end][end - 1] && d[end - 1] == d[..end][end - 1];
      assert b[..end - 1] == b[..end][..end - 1] && d[..end - 1] == d[..end][..end - 1];
      SeekBackSame(b, d, c, from, end - 1);
    }
  }

  lemma DivideSame(b: bytes, d: bytes, from: nat, end: nat)
    requires from < end <= |b| && end <= |d| && b[..end] == d[..end]
    ensures Divide(b, from, end) == Divide(d, from, end)
  {
    SeekSame(b, d, CLOSE_BRACKET, from + 1, end);
    SeekBackSame(b, d, COLON, from, end);
    assert forall i :: 0 <= i < end ==> b[i] == b[..end][i] == d[..end][i] == d[i];
  }

  lemma SameSlice(b: bytes, d: bytes, end: nat, i: nat, j: nat)
    requires i <= j <= end <= |b| && end <= |d| && b[..end] == d[..end]
    ensures b[i..j] == d[i..j]
  {
    assert b[i..j] == b[..end][i..j] && d[i..j] == d[..end][i..j];
  }

  lemma ParseLineSame(p: Numeric, b: bytes, d: bytes, end: nat, n: nat)
    requires end <= |b| && end <= |d| && b[..end] == d[..end]
    ensures ParseLine(p, b, end, n) == ParseLine(p, d, end, n)
  {
    hide Seek, Divide, Port, FillHost, LooksLikeHttp;
    if end >= 17 {
      SameSlice(b, d, end, 0, 8);
      assert LooksLikeHttp(b) == LooksLikeHttp(d) by { LooksSame(b, d, end); }
      SeekSame(b, d, SPACE, 8, end);
      var te := Seek(b, SPACE, 8, end);
      if te != end && te != 8 && end - (te + 1) >= 8 {
        SameSlice(b, d, end, te + 1, te + 8);
        SameSlice(b, d, end, 0, te);
        DivideSame(b, d, 8, te);
        var a := Divide(b, 8, te);
        if a.Split? {
          SameSlice(b, d, end, a.port, te);
          SameSlice(b, d, end, a.host, a.hostEnd);
        }
      }
    }
  }

  lemma LooksSame(b: bytes, d: bytes, end: nat)
    requires 17 <= end <= |b| && end <= |d| && b[..end] == d[..end]
    ensures LooksLikeHttp(b) == LooksLikeHttp(d)
  {
    SameSlice(b, d, end, 0, |METHOD|);
    forall k | 0 <= k < |OTHERS| ensures HasPrefix(b, OTHERS[k]) == HasPrefix(d, OTHERS[k]) {
      SameSlice(b, d, end, 0, |OTHERS[k]|);
    }
  }

  /** What is answered is settled by the octets up to the first blank line. */
  lemma DependsOnHeaderOnly(p: Numeric, b: bytes, more: bytes)
    requires HeaderEnd(b).Some?
    ensures ParseConnect(p, b + more) == ParseConnect(p, b) == ParseConnect(p, b[..HeaderEnd(b).value])
  {
    HeaderEndStable(b, more);
    var n := HeaderEnd(b).value;
    var h := b[..n];
    assert (b + more)[..n] == h && h[..n] == h;
    var end := LineEndFrom(h, 0);
    SameSlice(b + more, h, n, 0, end);
    SameSlice(b, h, n, 0, end);
    ParseLineSame(p, b + more, h, end, n);
    ParseLineSame(p, b, h, end, n);
  }

  /** However a request arrives in pieces, the first answer other than "more" is the same. */
  lemma SameUnderAnyChunking(p: Numeric, stream: bytes, i: nat, j: nat)
    requires i <= j <= |stream| && !ParseConnect(p, stream[..i]).NeedMore?
    ensures ParseConnect(p, stream[..j]) == ParseConnect(p, stream[..i])
  {
    assert stream[..j] == stream[..i] + stream[i..j];
    DependsOnHeaderOnly(p, stream[..i], stream[i..j]);
  }

  // ----- rendering and parsing

  function Named(host: bytes, bracketed: bool): bytes {
    if bracketed then [OPEN_BRACKET] + host + [CLOSE_BRACKET] else host
  }

  /** The request line up to the minor version. */
  function Line(host: bytes, port: nat, bracketed: bool): bytes {
    METHOD + Named(host, bracketed) + [COLON] + Decimal(port) + [SPACE] + VERSION
  }

  /** A host that the line cannot be confused by. */
  predicate HostOk(host: bytes, bracketed: bool) {
    && 1 <= |host| <= 255
    && (forall i :: 0 <= i < |host| ==> host[i] != SPACE && host[i] != CR && host[i] != LF)
    && if bracketed then forall i :: 0 <= i < |host| ==> host[i] != CLOSE_BRACKET else host[0] != OPEN_BRACKET
  }

  function Message(host: bytes, port: nat, bracketed: bool, minor: byte, headers: bytes): bytes {
    Line(host, port, bracketed) + [minor] + [CR, LF] + headers + [CR, LF]
  }

  lemma {:induction false} SeekIs(b: bytes, c: byte, i: nat, end: nat, r: nat)
    requires i <= r < end <= |b| && b[r] == c && forall j :: i <= j < r ==> b[j] != c
    ensures Seek(b, c, i, end) == r
  {
  }

  lemma SeekBackIs(b: bytes, c: byte, from: nat, end: nat, r: nat)
    requires from < r <= end <= |b| && b[r - 1] == c && forall j :: r <= j < end ==> b[j] != c
    ensures SeekBack(b, c, from, end) == r
  {
  }

  /** Where the parts of a rendered line stand, whatever the parts are. */
  lemma Parts(head: bytes, named: bytes, digits: bytes, tail: bytes, rest: bytes)
    ensures var line := head + named + [COLON] + digits + [SPACE] + tail;
            var b, colon := line + rest, |head| + |named|;
            var te := colon + 1 + |digits|;
            && |line| == te + 1 + |tail| <= |b|
            && b[..|head|] == head && b[|head|..colon] == named && b[colon] == COLON && b[colon + 1..te] == digits
            && b[te] == SPACE && b[te + 1..te + 1 + |tail|] == tail
  {
    var b, colon := head + named + [COLON] + digits + [SPACE] + tail + rest, |head| + |named|;
    var te := colon + 1 + |digits|;
    assert b[|head|..colon] == named;
    assert b[colon + 1..te] == digits;
    assert b[te + 1..te + 1 + |tail|] == tail;
  }

  lemma LineParts(host: bytes, port: nat, bracketed: bool, rest: bytes)
    ensures var b, named, digits := Line(host, port, bracketed) + rest, Named(host, bracketed), Decimal(port);
            var colon := 8 + |named|;
            var te := colon + 1 + |digits|;
            && |Line(host, port, bracketed)| == te + 8 <= |b|
            && b[..8] == METHOD && b[8..colon] == named && b[colon] == COLON && b[colon + 1..te] == digits
            && b[te] == SPACE && b[te + 1..te + 8] == VERSION
            && b[8 + (if bracketed then 1 else 0)..colon - (if bracketed then 1 else 0)] == host
            && (bracketed ==> b[8] == OPEN_BRACKET && b[colon - 1] == CLOSE_BRACKET)
  {
    hide Decimal;
    var named := Named(host, bracketed);
    Parts(METHOD, named, Decimal(port), VERSION, rest);
    if bracketed {
      hide Line;
      var b, colon := Line(host, port, bracketed) + rest, 8 + |named|;
      assert named[0] == OPEN_BRACKET && named[|named| - 1] == CLOSE_BRACKET && named[1..|named| - 1] == host;
      assert b[9..colon - 1] == b[8..colon][1..|named| - 1];
      assert b[8] == b[8..colon][0] && b[colon - 1] == b[8..colon][|named| - 1];
    }
  }

  /** The authority of a rendered line comes apart as it was put together. */
  lemma DividesRendered(host: bytes, port: nat, bracketed: bool, rest: bytes)
    requires HostOk(host, bracketed)
    ensures var b, colon := Line(host, port, bracketed) + rest, 8 + |Named(host, bracketed)|;
            var te := colon + 1 + |Decimal(port)|;
            && te <= |b|
            && Divide(b, 8, te) == Split(if bracketed then 9 else 8, if bracketed then colon - 1 else colon, colon + 1)
  {
    LineParts(host, port, bracketed, rest);
    hide Line, Decimal;
    var b, colon := Line(host, port, bracketed) + rest, 8 + |Named(host, bracketed)|;
    var te := colon + 1 + |Decimal(port)|;
    if bracketed {
      forall j | 9 <= j < colon - 1 ensures b[j] != CLOSE_BRACKET { assert b[j] == b[9..colon - 1][j - 9]; }
      SeekIs(b, CLOSE_BRACKET, 9, te, colon - 1);
    } else {
      assert b[8] == b[8..colon][0];
      forall j | colon + 1 <= j < te ensures b[j] != COLON { assert b[j] == b[colon + 1..te][j - colon - 1]; }
      SeekBackIs(b, COLON, 8, te, colon + 1);
    }
  }

  lemma InSlice(b: bytes, i: nat, k: nat, j: nat)
    requires i <= j < k <= |b|
    ensures b[j] == b[i..k][j - i]
  {
  }

  lemma NoSpaceInTarget(host: bytes, port: nat, bracketed: bool, rest: bytes)
    requires HostOk(host, bracketed)
    ensures var b, te := Line(host, port, bracketed) + rest, 8 + |Named(host, bracketed)| + 1 + |Decimal(port)|;
            te < |b| && forall j :: 8 <= j < te ==> b[j] != SPACE && b[j] != CR && b[j] != LF
  {
    LineParts(host, port, bracketed, rest);
    hide Line, Decimal;
    var b, colon := Line(host, port, bracketed) + rest, 8 + |Named(host, bracketed)|;
    var te := colon + 1 + |Decimal(port)|;
    var from, to := if bracketed then 9 else 8, if bracketed then colon - 1 else colon;
    assert b[from..to] == host && to - from == |host|;
    hide Named;
    forall j | 8 <= j < te ensures b[j] != SPACE && b[j] != CR && b[j] != LF {
      if from <= j < to {
        InSlice(b, from, to, j);
      } else if colon < j {
        InSlice(b, colon + 1, te, j);
      } else {
        assert b[j] == OPEN_BRACKET || b[j] == CLOSE_BRACKET || b[j] == COLON;
      }
    }
  }

  /** The pieces an accepted line falls into, and that these pieces make it accepted. */
  ghost predicate Accepted(p: Numeric, b: bytes, end: nat, t: Target)
    requires end <= |b|
  {
    && 17 <= end && At(b, 0, METHOD)
    && var te := Seek(b, SPACE, 8, end);
    && 8 < te && te + 9 <= end && At(b, te + 1, VERSION)
    && var a := Divide(b, 8, te);
    && a.Split? && Port(b[a.port..te]).Some?
    && FillHost(p, b[a.host..a.hostEnd], Port(b[a.port..te]).value) == Some(t)
  }

  lemma AcceptedLine(p: Numeric, b: bytes, end: nat, n: nat, t: Target)
    requires end <= |b|
    ensures ParseLine(p, b, end, n) == Ok(t, n) <==> Accepted(p, b, end, t)
    ensures ParseLine(p, b, end, n).Ok? ==> ParseLine(p, b, end, n).n == n
  {
    hide Seek, Divide, Port, FillHost, LooksLikeHttp, At;
  }

  lemma ParsesLine(p: Numeric, host: bytes, port: nat, bracketed: bool, rest: bytes, end: nat, n: nat)
    requires HostOk(host, bracketed) && 1 <= port <= 65535
    requires |Line(host, port, bracketed)| < end <= |Line(host, port, bracketed) + rest|
    ensures FillHost(p, host, port).Some?
    ensures ParseLine(p, Line(host, port, bracketed) + rest, end, n) == Ok(FillHost(p, host, port).value, n)
  {
    var b := Line(host, port, bracketed) + rest;
    assert FillHost(p, host, port).Some? by { hide Line; }
    hide ParseLine, FillHost, Line;
    RenderedIsAccepted(p, host, port, bracketed, rest, end);
    AcceptedLine(p, b, end, n, FillHost(p, host, port).value);
  }

  lemma SpaceBehindTarget(host: bytes, port: nat, bracketed: bool, rest: bytes, end: nat)
    requires HostOk(host, bracketed)
    requires |Line(host, port, bracketed)| < end <= |Line(host, port, bracketed) + rest|
    ensures Seek(Line(host, port, bracketed) + rest, SPACE, 8, end) == |Line(host, port, bracketed)| - 8
    ensures |Line(host, port, bracketed)| > 16
  {
    var b, te := Line(host, port, bracketed) + rest, |Line(host, port, bracketed)| - 8;
    LineParts(host, port, bracketed, rest);
    NoSpaceInTarget(host, port, bracketed, rest);
    hide Line, Decimal, Seek, HostOk;
    SeekIs(b, SPACE, 8, end, te);
  }

  lemma RenderedIsAccepted(p: Numeric, host: bytes, port: nat, bracketed: bool, rest: bytes, end: nat)
    requires HostOk(host, bracketed) && 1 <= port <= 65535 && FillHost(p, host, port).Some?
    requires |Line(host, port, bracketed)| < end <= |Line(host, port, bracketed) + rest|
    ensures Accepted(p, Line(host, port, bracketed) + rest, end, FillHost(p, host, port).value)
  {
    hide Line, Decimal, Port, Divide, Named, Seek, HostOk, FillHost;
    LineParts(host, port, bracketed, rest);
    SpaceBehindTarget(host, port, bracketed, rest, end);
    DividesRendered(host, port, bracketed, rest);
    PortIsCanonical(Decimal(port), port);
    var b, te := Line(host, port, bracketed) + rest, |Line(host, port, bracketed)| - 8;
    assert b[0..8] == b[..8] && At(b, 0, METHOD) && At(b, te + 1, VERSION);
    hide At;
    var a := Divide(b, 8, te);
    assert b[a.host..a.hostEnd] == host && b[a.port..te] == Decimal(port);
  }

  lemma NoBreakInLine(host: bytes, port: nat, bracketed: bool)
    requires HostOk(host, bracketed)
    ensures forall j :: 0 <= j < |Line(host, port, bracketed)| ==> Line(host, port, bracketed)[j] != CR
  {
    var line := Line(host, port, bracketed);
    assert line + [] == line;
    LineParts(host, port, bracketed, []);
    NoSpaceInTarget(host, port, bracketed, []);
    hide Line, HostOk, Named, Decimal;
    var te := |line| - 8;
    forall j | 0 <= j < |line| ensures line[j] != CR {
      if j < 8 {
        assert line[j] == line[..8][j];
      } else if te < j {
        assert line[j] == line[te + 1..te + 8][j - te - 1];
      }
    }
  }

  lemma EndsAfter(line: bytes, minor: byte, tail: bytes)
    requires minor != CR && forall j :: 0 <= j < |line| ==> line[j] != CR
    ensures LineEndFrom(line + [minor] + [CR, LF] + tail, 0) == |line| + 1
  {
    hide LineEndFrom;
    var b := line + [minor] + [CR, LF] + tail;
    assert forall j :: 0 <= j < |line| ==> b[j] == line[j];
    assert b[|line|] == minor && b[|line| + 1] == CR && b[|line| + 2] == LF;
  }

  /** Between the method and the end of the first line there is no line break, so the line ends where it was
      rendered. */
  lemma LineEndsThere(host: bytes, port: nat, bracketed: bool, minor: byte, headers: bytes)
    requires HostOk(host, bracketed) && minor != CR && minor != LF
    ensures LineEndFrom(Message(host, port, bracketed, minor, headers), 0) == |Line(host, port, bracketed)| + 1
  {
    var line := Line(host, port, bracketed);
    NoBreakInLine(host, port, bracketed);
    EndsAfter(line, minor, headers + [CR, LF]);
    assert Message(host, port, bracketed, minor, headers) == line + [minor] + [CR, LF] + (headers + [CR, LF])
           by { hide Line; }
  }

  /** A rendered request, whatever follows it, parses back to its host and port and its exact length. */
  lemma ConnectRoundTrip(p: Numeric, host: bytes, port: nat, bracketed: bool, minor: byte, headers: bytes,
                         trailing: bytes)
    requires HostOk(host, bracketed) && 1 <= port <= 65535 && minor != CR && minor != LF
    requires var m := Message(host, port, bracketed, minor, headers); HeaderEnd(m) == Some(|m|)
    ensures var m := Message(host, port, bracketed, minor, headers);
            FillHost(p, host, port).Some? && ParseConnect(p, m + trailing) == Ok(FillHost(p, host, port).value, |m|)
  {
    hide Line, Message, ParseLine, ParseConnect, HeaderEnd, LineEndFrom, FillHost, HostOk;
    var m, line := Message(host, port, bracketed, minor, headers), Line(host, port, bracketed);
    LineEndsThere(host, port, bracketed, minor, headers);
    IsLineAndRest(host, port, bracketed, minor, headers);
    ParsesLine(p, host, port, bracketed, [minor] + [CR, LF] + headers + [CR, LF], |line| + 1, |m|);
    Settled(p, m, |line| + 1, trailing);
  }

  lemma Settled(p: Numeric, m: bytes, end: nat, trailing: bytes)
    requires HeaderEnd(m) == Some(|m|) && end == LineEndFrom(m, 0)
    ensures ParseConnect(p, m + trailing) == ParseLine(p, m, end, |m|)
  {
    hide ParseLine, HeaderEnd, LineEndFrom;
    assert m[..|m|] == m;
    DependsOnHeaderOnly(p, m, trailing);
  }

  lemma IsLineAndRest(host: bytes, port: nat, bracketed: bool, minor: byte, headers: bytes)
    ensures var rest := [minor] + [CR, LF] + headers + [CR, LF];
            Message(host, port, bracketed, minor, headers) == Line(host, port, bracketed) + rest && |rest| >= 5
  {
    hide Line;
    var line := Line(host, port, bracketed);
    assert line + [minor] + [CR, LF] + headers + [CR, LF] == line + ([minor] + [CR, LF] + headers + [CR, LF]);
  }

  /** A request without further header fields ends at its blank line. */
  lemma BareRequestEnds(host: bytes, port: nat, bracketed: bool, minor: byte)
    requires HostOk(host, bracketed) && minor != CR && minor != LF
    ensures var m := Message(host, port, bracketed, minor, []); HeaderEnd(m) == Some(|m|)
  {
    var m, line := Message(host, port, bracketed, minor, []), Line(host, port, bracketed);
    LineEndsThere(host, port, bracketed, minor, []);
    hide Line;
    assert m == line + [minor, CR, LF, CR, LF];
    OnlyEnd(m, |m|);
  }

  /** What is accepted is a rendered line: a named host, a colon, a canonical port, a version. */
  lemma AcceptedIsRendered(p: Numeric, b: bytes)
    requires ParseConnect(p, b).Ok?
    ensures exists host, port, bracketed ::
              && 1 <= port <= 65535 && 1 <= |host| <= 255
              && Line(host, port, bracketed) <= b
              && FillHost(p, host, port) == Some(ParseConnect(p, b).addr)
    ensures HeaderEnd(b) == Some(ParseConnect(p, b).n)
  {
    var n := HeaderEnd(b).value;
    var end := LineEndFrom(b[..n], 0);
    hide LineEndFrom, HeaderEnd;
    AcceptedLineIsRendered(p, b, end, n);
  }

  lemma AcceptedLineIsRendered(p: Numeric, b: bytes, end: nat, n: nat)
    requires end <= |b| && ParseLine(p, b, end, n).Ok?
    ensures exists host, port, bracketed ::
              && 1 <= port <= 65535 && 1 <= |host| <= 255
              && Line(host, port, bracketed) <= b
              && FillHost(p, host, port) == Some(ParseLine(p, b, end, n).addr)
    ensures ParseLine(p, b, end, n).n == n
  {
    var t := ParseLine(p, b, end, n).addr;
    AcceptedLine(p, b, end, n, t);
    hide ParseLine;
    var te := Seek(b, SPACE, 8, end);
    var a := Divide(b, 8, te);
    var port, host, bracketed := Port(b[a.port..te]).value, b[a.host..a.hostEnd], b[8] == OPEN_BRACKET;
    assert 1 <= |host| <= 255 by { hide Seek, Divide, Port; }
    DividedIsNamed(b, 8, te);
    PortIsCanonical(b[a.port..te], port);
    hide Seek, Divide, Port, Decimal, Named, FillHost;
    IsLine(b, te, a.port, host, port, bracketed);
  }

  lemma IsLine(b: bytes, te: nat, i: nat, host: bytes, port: nat, bracketed: bool)
    requires 8 <= i <= te && At(b, 0, METHOD) && At(b, te + 1, VERSION) && b[te] == SPACE
    requires b[8..i] == Named(host, bracketed) + [COLON] && b[i..te] == Decimal(port)
    ensures Line(host, port, bracketed) <= b
  {
    hide Named, Decimal;
    Joined(b, i, te);
    assert Line(host, port, bracketed) ==
           METHOD + (Named(host, bracketed) + [COLON]) + Decimal(port) + [SPACE] + VERSION;
    assert b[..te + 8] == Line(host, port, bracketed);
  }

  /** An accepted request names an address that has a wire form, and a port that is not 0. */
  lemma AcceptedHasWireForm(p: Numeric, b: bytes)
    requires Sized(p) && ParseConnect(p, b).Ok?
    ensures WellFormed(ParseConnect(p, b).addr) && ParseConnect(p, b).addr.port > 0
  {
    hide LineEndFrom, ParseLine;
    var n, t := HeaderEnd(b).value, ParseConnect(p, b).addr;
    AcceptedLineIsRendered(p, b, LineEndFrom(b[..n], 0), n);
    hide Line;
  }

  lemma Joined(b: bytes, i: nat, te: nat)
    requires 8 <= i <= te && te + 8 <= |b|
    ensures b[..te + 8] == b[..8] + b[8..i] + b[i..te] + [b[te]] + b[te + 1..te + 8]
  {
  }

  lemma DividedIsNamed(b: bytes, from: nat, end: nat)
    requires from < end <= |b| && Divide(b, from, end).Split?
    ensures var a := Divide(b, from, end);
            b[from..a.port] == Named(b[a.host..a.hostEnd], b[from] == OPEN_BRACKET) + [COLON]
  {
    hide Seek, SeekBack;
    var a := Divide(b, from, end);
    if b[from] == OPEN_BRACKET {
      assert b[from..a.port] == [b[from]] + b[a.host..a.hostEnd] + [b[a.hostEnd]] + [b[a.hostEnd + 1]];
    } else {
      assert b[from..a.port] == b[a.host..a.hostEnd] + [b[a.hostEnd]];
    }
  }
}
