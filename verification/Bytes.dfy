/** Octets, ASCII case folding, big-endian integers and the bitwise AND of naturals. */
module Bytes {

  datatype Option<+T> = None | Some(value: T)

  /** A sequence without its k-th element. */
  function Removed<T>(s: seq<T>, k: nat): (r: seq<T>)
    requires k < |s|
    ensures |r| == |s| - 1
    ensures forall i :: 0 <= i < |r| ==> r[i] == if i < k then s[i] else s[i + 1]
  {
    s[..k] + s[k + 1..]
  }

  type byte = b: int | 0 <= b < 256

  type bytes = seq<byte>

  const CR: byte := 13
  const LF: byte := 10

  /** ngx_tolower: only the octets of 'A'..'Z' change. */
  function ToLower(c: byte): byte {
    if 65 <= c <= 90 then c + 32 else c
  }

  function Fold(s: bytes): (r: bytes)
    ensures |r| == |s|
    ensures forall i :: 0 <= i < |s| ==> r[i] == ToLower(s[i])
  {
    seq(|s|, i requires 0 <= i < |s| => ToLower(s[i]))
  }

  /** Equal, or the upper and the lower form of one letter: 'A'..'Z' are 65..90, 'a'..'z' 97..122. */
  predicate SameLetter(x: byte, y: byte) {
    x == y || (65 <= x <= 90 && y == x + 32) || (97 <= x <= 122 && y == x - 32)
  }

  predicate SameText(a: bytes, b: bytes) {
    |a| == |b| && forall i :: 0 <= i < |a| ==> SameLetter(a[i], b[i])
  }

  /** Folding tells apart everything but the case of letters. */
  lemma FoldIsSameText(a: bytes, b: bytes)
    ensures Fold(a) == Fold(b) <==> SameText(a, b)
  {
    if |a| == |b| {
      assert forall i :: 0 <= i < |a| ==> (Fold(a)[i] == Fold(b)[i] <==> SameLetter(a[i], b[i]));
    }
  }

  lemma FoldSlice(s: bytes, i: nat)
    requires i <= |s|
    ensures Fold(s[i..]) == Fold(s)[i..]
  {
  }

  lemma FoldTwice(s: bytes)
    ensures Fold(Fold(s)) == Fold(s)
  {
  }

  function U16(hi: byte, lo: byte): (v: nat)
    ensures v < 0x1_0000
  {
    hi * 256 + lo
  }

  function PutU16(v: nat): (s: bytes)
    requires v < 0x1_0000
    ensures |s| == 2 && U16(s[0], s[1]) == v
  {
    [v / 256, v % 256]
  }

  function U32(s: bytes): (v: nat)
    requires |s| == 4
    ensures v < 0x1_0000_0000
  {
    U16(s[0], s[1]) * 0x1_0000 + U16(s[2], s[3])
  }

  function PutU32(v: nat): (s: bytes)
    requires v < 0x1_0000_0000
    ensures |s| == 4 && U32(s) == v
  {
    PutU16(v / 0x1_0000) + PutU16(v % 0x1_0000)
  }

  lemma U16Unique(hi: byte, lo: byte)
    ensures PutU16(U16(hi, lo)) == [hi, lo]
  {
  }

  /** memcpy at a cursor; the rest of the array stays. */
  method Write(out: array<byte>, pos: nat, s: bytes) returns (next: nat)
    requires pos + |s| <= out.Length
    modifies out
    ensures next == pos + |s|
    ensures out[..pos] == old(out[..pos]) && out[pos..next] == s && out[next..] == old(out[next..])
    ensures out[..next] == old(out[..pos]) + s
  {
    next := pos + |s|;
    for i := 0 to |s|
      invariant out[..pos] == old(out[..pos]) && out[next..] == old(out[next..])
      invariant forall j :: 0 <= j < i ==> out[pos + j] == s[j]
    {
      out[pos + i] := s[i];
    }
  }

  /** Bitwise AND of two naturals, bit by bit from the lowest. */
  function BitAnd(a: nat, b: nat): (r: nat)
    ensures r <= a && r <= b
  {
    if a == 0 || b == 0 then 0
    else (if a % 2 == 1 && b % 2 == 1 then 1 else 0) + 2 * BitAnd(a / 2, b / 2)
  }

  function Pow2(k: nat): (p: nat)
    ensures p >= 1
  {
    if k == 0 then 1 else 2 * Pow2(k - 1)
  }

  /** Masking with 2^k - 1 is the remainder modulo 2^k. */
  lemma {:induction false} MaskIsRemainder(a: nat, k: nat)
    ensures BitAnd(a, Pow2(k) - 1) == a % Pow2(k)
  {
    if k == 0 {
      assert Pow2(k) == 1;
    } else {
      hide BitAnd;
      MaskIsRemainder(a / 2, k - 1);
      MaskStep(a, Pow2(k - 1), Pow2(k));
    }
  }

  lemma MaskStep(a: nat, p: nat, q: nat)
    requires p > 0 && q == 2 * p && BitAnd(a / 2, p - 1) == (a / 2) % p
    ensures BitAnd(a, q - 1) == a % q
  {
    hide BitAnd;
    OddMask(a, p);
    HalveRemainder(a, p);
  }

  lemma OddMask(a: nat, p: nat)
    requires p > 0
    ensures BitAnd(a, 2 * p - 1) == a % 2 + 2 * BitAnd(a / 2, p - 1)
  {
    var m := 2 * p - 1;
    assert m / 2 == p - 1 && m % 2 == 1;
  }

  lemma HalveRemainder(a: nat, p: nat)
    requires p > 0
    ensures a % (2 * p) == a % 2 + 2 * ((a / 2) % p)
  {
    var h := a / 2;
    var q, r := h / p, h % p;
    assert h == q * p + r;
    assert a == 2 * h + a % 2;
    assert a == q * (2 * p) + (2 * r + a % 2);
    RemainderOf(a, q, 2 * p, 2 * r + a % 2);
  }

  lemma MultipleIsFar(d: int, m: int)
    requires d != 0 && m > 0
    ensures d * m >= m || d * m <= -m
  {
  }

  lemma RemainderOf(a: int, q: int, m: nat, r: nat)
    requires m > 0 && r < m && a == q * m + r
    ensures a % m == r
  {
    var d := a / m - q;
    assert a == (a / m) * m + a % m;
    assert d * m == r - a % m;
    if d != 0 {
      MultipleIsFar(d, m);
      assert false;
    }
  }

  lemma BitAndBits(a: nat, b: nat)
    ensures BitAnd(a, b) / 2 == BitAnd(a / 2, b / 2)
    ensures BitAnd(a, b) % 2 == if a % 2 == 1 && b % 2 == 1 then 1 else 0
  {
    if a > 0 && b > 0 {
      var h := BitAnd(a / 2, b / 2);
      var l := if a % 2 == 1 && b % 2 == 1 then 1 else 0;
      assert BitAnd(a, b) == l + 2 * h;
    }
  }

  lemma {:induction false} BitAndAssociative(a: nat, b: nat, c: nat)
    ensures BitAnd(BitAnd(a, b), c) == BitAnd(a, BitAnd(b, c))
  {
    if a > 0 && b > 0 && c > 0 {
      BitAndAssociative(a / 2, b / 2, c / 2);
      var l, r := BitAnd(BitAnd(a, b), c), BitAnd(a, BitAnd(b, c));
      BitAndBits(a, b);
      BitAndBits(b, c);
      BitAndBits(BitAnd(a, b), c);
      BitAndBits(a, BitAnd(b, c));
      assert l / 2 == r / 2 && l % 2 == r % 2;
    }
  }

  /** memcmp: the sign of the first difference. */
  function MemCmp(a: bytes, b: bytes): (r: int)
    requires |a| == |b|
  {
    if a == [] then 0
    else if a[0] != b[0] then a[0] - b[0]
    else MemCmp(a[1..], b[1..])
  }

  /** Dictionary order. */
  predicate Lex(a: bytes, b: bytes) {
    if a == [] then true
    else if b == [] then false
    else if a[0] != b[0] then a[0] < b[0]
    else Lex(a[1..], b[1..])
  }

  lemma {:induction false} LexTotal(a: bytes, b: bytes)
    ensures Lex(a, b) || Lex(b, a)
    ensures Lex(a, b) && Lex(b, a) ==> a == b
  {
    if a != [] && b != [] && a[0] == b[0] {
      LexTotal(a[1..], b[1..]);
      assert a == [a[0]] + a[1..] && b == [b[0]] + b[1..];
    }
  }

  lemma {:induction false} LexTransitive(a: bytes, b: bytes, c: bytes)
    requires Lex(a, b) && Lex(b, c)
    ensures Lex(a, c)
  {
    if a != [] && a[0] == b[0] == c[0] {
      LexTransitive(a[1..], b[1..], c[1..]);
    }
  }

  lemma {:induction false} MemCmpSign(a: bytes, b: bytes)
    requires |a| == |b|
    ensures MemCmp(a, b) == 0 <==> a == b
    ensures MemCmp(a, b) <= 0 <==> Lex(a, b)
  {
    if a != [] && a[0] == b[0] {
      MemCmpSign(a[1..], b[1..]);
      assert a == [a[0]] + a[1..] && b == [b[0]] + b[1..];
    }
  }
}
