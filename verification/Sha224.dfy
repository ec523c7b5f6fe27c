/** SHA-224 (FIPS 180-4): the buffered computation and the specification it meets. */
module Sha224 {
  import opened Bytes

  const BLOCK := 64

  // ----- sections 4.1.2 and 4.2.2: functions and constants

  /** Addition modulo 2^32. */
  function Plus(x: bv32, y: bv32): bv32 { x + y }

  function Rotr(x: bv32, n: bv32): bv32
    requires 0 < n < 32
  {
    (x >> n) | (x << (32 - n))
  }

  function Ch(x: bv32, y: bv32, z: bv32): bv32 { (x & y) ^ (!x & z) }

  function Maj(x: bv32, y: bv32, z: bv32): bv32 { (x & y) ^ (x & z) ^ (y & z) }

  function Sum(x: bv32, y: bv32, z: bv32): bv32 { x ^ y ^ z }

  function Big0(x: bv32): bv32 { Sum(Rotr(x, 2), Rotr(x, 13), Rotr(x, 22)) }

  function Big1(x: bv32): bv32 { Sum(Rotr(x, 6), Rotr(x, 11), Rotr(x, 25)) }

  function Small0(x: bv32): bv32 { Sum(Rotr(x, 7), Rotr(x, 18), x >> 3) }

  function Small1(x: bv32): bv32 { Sum(Rotr(x, 17), Rotr(x, 19), x >> 10) }

  function Fractions(row: nat): (w: seq<nat>)
    requires row < 8
    ensures |w| == 8
  {
    match row
    case 0 => [0x428a2f98, 0x71374491, 0xb5c0fbcf, 0xe9b5dba5, 0x3956c25b, 0x59f111f1, 0x923f82a4, 0xab1c5ed5]
    case 1 => [0xd807aa98, 0x12835b01, 0x243185be, 0x550c7dc3, 0x72be5d74, 0x80deb1fe, 0x9bdc06a7, 0xc19bf174]
    case 2 => [0xe49b69c1, 0xefbe4786, 0x0fc19dc6, 0x240ca1cc, 0x2de92c6f, 0x4a7484aa, 0x5cb0a9dc, 0x76f988da]
    case 3 => [0x983e5152, 0xa831c66d, 0xb00327c8, 0xbf597fc7, 0xc6e00bf3, 0xd5a79147, 0x06ca6351, 0x14292967]
    case 4 => [0x27b70a85, 0x2e1b2138, 0x4d2c6dfc, 0x53380d13, 0x650a7354, 0x766a0abb, 0x81c2c92e, 0x92722c85]
    case 5 => [0xa2bfe8a1, 0xa81a664b, 0xc24b8b70, 0xc76c51a3, 0xd192e819, 0xd6990624, 0xf40e3585, 0x106aa070]
    case 6 => [0x19a4c116, 0x1e376c08, 0x2748774c, 0x34b0bcb5, 0x391c0cb3, 0x4ed8aa4a, 0x5b9cca4f, 0x682e6ff3]
    case _ => [0x748f82ee, 0x78a5636f, 0x84c87814, 0x8cc70208, 0x90befffa, 0xa4506ceb, 0xbef9a3f7, 0xc67178f2]
  }

  function K(t: nat): bv32
    requires t < 64
  {
    Fractions(t / 8)[t % 8] as bv32
  }

  /** A big-endian word. */
  function Load(b: bytes): bv32
    requires |b| == 4
  {
    ((b[0] as bv32) << 24) | ((b[1] as bv32) << 16) | ((b[2] as bv32) << 8) | (b[3] as bv32)
  }

  function Octet(v: bv32): byte { (v & 0xff) as bv8 as int }

  function Store(v: bv32): (b: bytes)
    ensures |b| == 4
  {
    [Octet(v >> 24), Octet(v >> 16), Octet(v >> 8), Octet(v)]
  }

  // ----- section 6.2.2: one block

  /** The message schedule. */
  function W(block: bytes, t: nat): bv32
    requires |block| == BLOCK && t < 64
  {
    if t < 16 then Load(block[4 * t..4 * t + 4])
    else Plus(Plus(Plus(W(block, t - 16), Small0(W(block, t - 15))), W(block, t - 7)), Small1(W(block, t - 2)))
  }

  datatype Working = Working(a: bv32, b: bv32, c: bv32, d: bv32, e: bv32, f: bv32, g: bv32, h: bv32)

  function Round(v: Working, k: bv32, w: bv32): Working {
    var t1 := Plus(Plus(Plus(Plus(v.h, Big1(v.e)), Ch(v.e, v.f, v.g)), k), w);
    var t2 := Plus(Big0(v.a), Maj(v.a, v.b, v.c));
    Working(Plus(t1, t2), v.a, v.b, v.c, Plus(v.d, t1), v.e, v.f, v.g)
  }

  function Rounds(v: Working, block: bytes, t: nat): Working
    requires |block| == BLOCK && t <= 64
  {
    if t == 0 then v else Round(Rounds(v, block, t - 1), K(t - 1), W(block, t - 1))
  }

  /** 64 rounds, as many as the block has octets. */
  function Compress(h: Working, block: bytes): Working
    requires |block| == BLOCK
  {
    var v := Rounds(h, block, |block|);
    Working(Plus(h.a, v.a), Plus(h.b, v.b), Plus(h.c, v.c), Plus(h.d, v.d), Plus(h.e, v.e), Plus(h.f, v.f),
      Plus(h.g, v.g), Plus(h.h, v.h))
  }

  // ----- sections 5.1.1, 5.3.2 and 6.3: padding, initial value, digest

  const INITIAL := Working(0xc1059ed8, 0x367cd507, 0x3070dd17, 0xf70e5939, 0xffc00b31, 0x68581511, 0x64f98fa7,
    0xbefa4fa4)

  /** The compression function folded over whole blocks. */
  function Absorbed(m: bytes): Working
    requires |m| % BLOCK == 0
  {
    if m == [] then INITIAL else Compress(Absorbed(m[..|m| - BLOCK]), m[|m| - BLOCK..])
  }

  function Zeros(n: nat): (z: bytes)
    ensures |z| == n && forall i :: 0 <= i < n ==> z[i] == 0
  {
    seq(n, _ => 0)
  }

  /** How many zero octets go between the end mark and the length. */
  function ZeroCount(n: nat): (k: nat)
    ensures k < BLOCK && (n + 1 + k + 8) % BLOCK == 0
  {
    if n % BLOCK < 56 then 55 - n % BLOCK else 119 - n % BLOCK
  }

  function PutU64(v: nat): (s: bytes)
    requires v < 0x1_0000_0000_0000_0000
    ensures |s| == 8
  {
    PutU32(v / 0x1_0000_0000) + PutU32(v % 0x1_0000_0000)
  }

  const MAX_MESSAGE := 0x2000_0000_0000_0000

  const LENGTH_WORD := 0x1_0000_0000_0000_0000

  /** The message, an end mark, zeros up to the last eight octets of a block, and a length in bits. */
  function PaddedWith(m: bytes, bits: nat): (p: bytes)
    requires bits < LENGTH_WORD
    ensures |p| % BLOCK == 0
  {
    m + [0x80] + Zeros(ZeroCount(|m|)) + PutU64(bits)
  }

  function Padded(m: bytes): (p: bytes)
    requires |m| < MAX_MESSAGE
    ensures |p| % BLOCK == 0
  {
    PaddedWith(m, 8 * |m|)
  }

  /** No shorter run of zeros completes a block. */
  lemma ZeroCountIsLeast(n: nat, k: nat)
    requires (n + 1 + k + 8) % BLOCK == 0
    ensures ZeroCount(n) <= k
  {
  }

  /** The leftmost 224 bits of the final hash value. */
  function Leftmost(v: Working): (d: bytes)
    ensures |d| == 28
  {
    Store(v.a) + Store(v.b) + Store(v.c) + Store(v.d) + Store(v.e) + Store(v.f) + Store(v.g)
  }

  function Digest(m: bytes): (d: bytes)
    requires |m| < MAX_MESSAGE
    ensures |d| == 28
  {
    Leftmost(Absorbed(Padded(m)))
  }

  lemma AbsorbedNext(m: bytes, b: bytes)
    requires |m| % BLOCK == 0 == |m + b| % BLOCK && |b| == BLOCK
    ensures Absorbed(m + b) == Compress(Absorbed(m), b)
  {
    assert (m + b)[..|m + b| - BLOCK] == m && (m + b)[|m + b| - BLOCK..] == b;
  }

  lemma BlockMore(n: nat)
    requires n % BLOCK == 0
    ensures (n + BLOCK) % BLOCK == 0
  {
  }

  lemma AbsorbedNothing()
    ensures Absorbed([]) == INITIAL
  {
  }

  lemma TailLength(n: nat, r: nat)
    requires n % BLOCK == 0 && r < BLOCK
    ensures (n + r) % BLOCK == r
  {
  }

  /** Padding that fits behind the last r octets. */
  lemma PadsOneBlock(m: bytes, tail: bytes, bits: nat)
    requires |m| % BLOCK == 0 && |tail| < 56 && bits < LENGTH_WORD
    ensures var last := tail + [0x80] + Zeros(55 - |tail|) + PutU64(bits);
            PaddedWith(m + tail, bits) == m + last && |last| == BLOCK
  {
    TailLength(|m|, |tail|);
    var z := Zeros(55 - |tail|);
    assert m + tail + [0x80] + z + PutU64(bits) == m + (tail + [0x80] + z + PutU64(bits));
  }

  /** Padding that needs a block of its own for the length. */
  lemma PadsTwoBlocks(m: bytes, tail: bytes, bits: nat)
    requires |m| % BLOCK == 0 && 56 <= |tail| < BLOCK && bits < LENGTH_WORD
    ensures var first, last := tail + [0x80] + Zeros(63 - |tail|), Zeros(56) + PutU64(bits);
            PaddedWith(m + tail, bits) == m + first + last && |first| == |last| == BLOCK
  {
    TailLength(|m|, |tail|);
    var z, y := Zeros(63 - |tail|), Zeros(56);
    assert Zeros(119 - |tail|) == z + y;
    assert m + tail + [0x80] + (z + y) + PutU64(bits) == m + (tail + [0x80] + z) + (y + PutU64(bits));
  }

  // ----- the implementation

  method Schedule(block: array<byte>) returns (w: array<bv32>)
    requires block.Length == BLOCK
    ensures fresh(w) && w.Length == 64 && forall t :: 0 <= t < 64 ==> w[t] == W(block[..], t)
  {
    hide Load, Small0, Small1, W, Plus;
    w := new bv32[64](_ => 0);
    for i := 0 to 16
      invariant forall t :: 0 <= t < i ==> w[t] == W(block[..], t)
    {
      EarlyWord(block[..], i);
      assert block[..][4 * i..4 * i + 4] == block[4 * i..4 * i + 4];
      w[i] := Load(block[4 * i..4 * i + 4]);
    }
    for i := 16 to 64
      invariant forall t :: 0 <= t < i ==> w[t] == W(block[..], t)
    {
      LateWord(block[..], i);
      w[i] := Plus(Plus(Plus(w[i - 16], Small0(w[i - 15])), w[i - 7]), Small1(w[i - 2]));
    }
  }

  lemma EarlyWord(block: bytes, t: nat)
    requires |block| == BLOCK && t < 16
    ensures W(block, t) == Load(block[4 * t..4 * t + 4])
  {
  }

  lemma LateWord(block: bytes, t: nat)
    requires |block| == BLOCK && 16 <= t < 64
    ensures W(block, t) == Plus(Plus(Plus(W(block, t - 16), Small0(W(block, t - 15))), W(block, t - 7)),
            Small1(W(block, t - 2)))
  {
  }

  function Words(h: array<bv32>): Working
    requires h.Length == 8
    reads h
  {
    Working(h[0], h[1], h[2], h[3], h[4], h[5], h[6], h[7])
  }

  method Transform(hash: array<bv32>, block: array<byte>)
    requires hash.Length == 8 && block.Length == BLOCK
    modifies hash
    ensures Words(hash) == Compress(old(Words(hash)), block[..])
  {
    hide Rounds, W, Big0, Big1, Ch, Maj, K, Plus;
    var w := Schedule(block);
    ghost var h0, blk := Words(hash), block[..];
    var a, b, c, d, e, f, g, h := hash[0], hash[1], hash[2], hash[3], hash[4], hash[5], hash[6], hash[7];
    RoundsFrom(h0, blk);
    for i := 0 to 64
      invariant Working(a, b, c, d, e, f, g, h) == Rounds(h0, blk, i)
      invariant Words(hash) == h0 && forall t :: 0 <= t < 64 ==> w[t] == W(blk, t)
    {
      RoundsNext(h0, blk, i);
      var t1 := Plus(Plus(Plus(Plus(h, Big1(e)), Ch(e, f, g)), K(i)), w[i]);
      var t2 := Plus(Big0(a), Maj(a, b, c));
      h := g;
      g := f;
      f := e;
      e := Plus(d, t1);
      d := c;
      c := b;
      b := a;
      a := Plus(t1, t2);
    }
    hash[0] := Plus(hash[0], a);
    hash[1] := Plus(hash[1], b);
    hash[2] := Plus(hash[2], c);
    hash[3] := Plus(hash[3], d);
    hash[4] := Plus(hash[4], e);
    hash[5] := Plus(hash[5], f);
    hash[6] := Plus(hash[6], g);
    hash[7] := Plus(hash[7], h);
  }

  lemma RoundsFrom(v: Working, block: bytes)
    requires |block| == BLOCK
    ensures Rounds(v, block, 0) == v
  {
  }

  lemma RoundsNext(v: Working, block: bytes, t: nat)
    requires |block| == BLOCK && t < 64
    ensures Rounds(v, block, t + 1) == Round(Rounds(v, block, t), K(t), W(block, t))
  {
  }

  /** The octets [from, to) set to zero. */
  method Clear(a: array<byte>, from: nat, to: nat)
    requires from <= to <= a.Length
    modifies a
    ensures a[..from] == old(a[..from]) && a[from..to] == Zeros(to - from) && a[to..] == old(a[to..])
  {
    for i := from to to
      invariant a[..from] == old(a[..from]) && a[to..] == old(a[to..])
      invariant forall j :: from <= j < i ==> a[j] == 0
    {
      a[i] := 0;
    }
  }

  class Context {
    const h: array<bv32>
    const block: array<byte>
    var len: nat
    var blockLen: nat

    /** The context after absorbing m: whole blocks are folded, the rest is buffered. */
    ghost predicate Holds(m: bytes)
      reads this`blockLen, h, block
    {
      && h.Length == 8 && block.Length == BLOCK && blockLen < BLOCK && blockLen <= |m|
      && (|m| - blockLen) % BLOCK == 0
      && Words(h) == Absorbed(m[..|m| - blockLen])
      && block[..blockLen] == m[|m| - blockLen..]
    }

    constructor ()
      ensures Holds([]) && len == 0 && fresh(h) && fresh(block)
    {
      hide Absorbed;
      AbsorbedNothing();
      var a := new bv32[8];
      a[0], a[1], a[2], a[3] := 0xc1059ed8, 0x367cd507, 0x3070dd17, 0xf70e5939;
      a[4], a[5], a[6], a[7] := 0xffc00b31, 0x68581511, 0x64f98fa7, 0xbefa4fa4;
      h := a;
      block := new byte[BLOCK](_ => 0);
      len, blockLen := 0, 0;
    }

    /** Buffers a chunk that fits, and folds the block it fills. */
    method Take(chunk: bytes, ghost m: bytes)
      requires Holds(m) && blockLen + |chunk| <= BLOCK
      modifies this`blockLen, h, block
      ensures Holds(m + chunk)
    {
      hide Compress, Absorbed;
      ghost var whole, tail := m[..|m| - blockLen], m[|m| - blockLen..];
      assert m == whole + tail && |whole| % BLOCK == 0;
      blockLen := Write(block, blockLen, chunk);
      assert block[..blockLen] == block[..|tail|] + block[|tail|..blockLen] == tail + chunk;
      assert m + chunk == whole + (tail + chunk);
      if blockLen == BLOCK {
        Fold(whole, tail + chunk);
      } else {
        HoldsParts(whole, tail + chunk);
      }
    }

    /** The full block goes into the hash value. */
    method Fold(ghost whole: bytes, ghost last: bytes)
      requires h.Length == 8 && block.Length == BLOCK == |last| && |whole| % BLOCK == 0
      requires Words(h) == Absorbed(whole) && block[..BLOCK] == last
      modifies this`blockLen, h
      ensures Holds(whole + last)
    {
      hide Compress, Absorbed;
      assert block[..] == last;
      BlockMore(|whole|);
      AbsorbedNext(whole, last);
      Transform(h, block);
      blockLen := 0;
      assert whole + last == whole + last + [];
      HoldsParts(whole + last, []);
    }

    lemma HoldsParts(whole: bytes, rest: bytes)
      requires h.Length == 8 && block.Length == BLOCK && |whole| % BLOCK == 0 && blockLen == |rest| < BLOCK
      requires Words(h) == Absorbed(whole) && block[..blockLen] == rest
      ensures Holds(whole + rest)
    {
      hide Absorbed;
      var m := whole + rest;
      assert m[..|m| - blockLen] == whole && m[|m| - blockLen..] == rest;
    }

    lemma HasRoom(m: bytes)
      requires Holds(m)
      ensures blockLen < BLOCK
    {
    }

    method Update(data: bytes, ghost m: bytes)
      requires Holds(m)
      modifies this`len, this`blockLen, h, block
      ensures Holds(m + data) && len == (old(len) + 8 * |data|) % LENGTH_WORD
    {
      hide Holds;
      len := (len + 8 * |data|) % LENGTH_WORD;
      var i := 0;
      assert m + data[..0] == m;
      while i < |data|
        invariant i <= |data| && Holds(m + data[..i])
        invariant len == (old(len) + 8 * |data|) % LENGTH_WORD
        decreases |data| - i
      {
        HasRoom(m + data[..i]);
        var n := BLOCK - blockLen;
        if n > |data| - i {
          n := |data| - i;
        }
        Take(data[i..i + n], m + data[..i]);
        assert m + data[..i] + data[i..i + n] == m + data[..i + n];
        i := i + n;
      }
      assert data[..i] == data;
    }

    /** Clears the rest of the block, writes the length in its last octets, and folds it. */
    method LastBlock(lenBuf: bytes, ghost whole: bytes, ghost last: bytes)
      requires h.Length == 8 && block.Length == BLOCK == |last| && |lenBuf| == 8 && blockLen <= 56
      requires last == block[..blockLen] + Zeros(56 - blockLen) + lenBuf
      requires |whole| % BLOCK == 0 == |whole + last| % BLOCK && Words(h) == Absorbed(whole)
      modifies h, block
      ensures Words(h) == Absorbed(whole + last)
    {
      hide Compress, Absorbed;
      ghost var tail := block[..blockLen];
      Clear(block, blockLen, 56);
      assert block[..56] == tail + Zeros(56 - |tail|);
      var end := Write(block, 56, lenBuf);
      assert block[..] == last;
      AbsorbedNext(whole, last);
      Transform(h, block);
    }

    /** No room for the length: the block is filled with zeros and folded. */
    method FirstBlock(ghost whole: bytes, ghost first: bytes)
      requires h.Length == 8 && block.Length == BLOCK == |first| && blockLen <= BLOCK
      requires first == block[..blockLen] + Zeros(BLOCK - blockLen)
      requires |whole| % BLOCK == 0 == |whole + first| % BLOCK && Words(h) == Absorbed(whole)
      modifies h, block
      ensures Words(h) == Absorbed(whole + first)
    {
      hide Compress, Absorbed;
      Clear(block, blockLen, BLOCK);
      assert block[..] == block[..blockLen] + block[blockLen..] == first;
      AbsorbedNext(whole, first);
      Transform(h, block);
    }

    /** The last block or two, and the digest. */
    method Final(out: array<byte>, ghost m: bytes)
      requires Holds(m) && len < LENGTH_WORD && out.Length == 28 && out != block
      modifies this`blockLen, h, block, out
      ensures out[..] == Leftmost(Absorbed(PaddedWith(m, len)))
    {
      hide Compress, Absorbed, PutU64, Store, PaddedWith, Plus;
      ghost var whole, tail := m[..|m| - blockLen], m[|m| - blockLen..];
      assert m == whole + tail;
      var lenBuf := PutU64(len);
      block[blockLen] := 0x80;
      blockLen := blockLen + 1;
      assert block[..blockLen] == tail + [0x80];
      if blockLen > 56 {
        PadsTwoBlocks(whole, tail, len);
        BlockMore(|whole|);
        BlockMore(|whole| + BLOCK);
        ghost var first, last := tail + [0x80] + Zeros(63 - |tail|), Zeros(56) + lenBuf;
        FirstBlock(whole, first);
        blockLen := 0;
        assert block[..0] + Zeros(56) + lenBuf == last;
        LastBlock(lenBuf, whole + first, last);
      } else {
        PadsOneBlock(whole, tail, len);
        BlockMore(|whole|);
        LastBlock(lenBuf, whole, tail + [0x80] + Zeros(55 - |tail|) + lenBuf);
      }
      WriteDigest(out);
    }

    method WriteDigest(out: array<byte>)
      requires h.Length == 8 && out.Length == 28
      modifies out
      ensures out[..] == Leftmost(Words(h))
    {
      hide Store;
      for i := 0 to 7
        invariant forall j :: 0 <= j < i ==> out[4 * j..4 * j + 4] == Store(h[j])
      {
        var word := Store(h[i]);
        var next := Write(out, 4 * i, word);
      }
      assert out[..] == out[0..4] + out[4..8] + out[8..12] + out[12..16] + out[16..20] + out[20..24] + out[24..28];
    }
  }

  /** Any cutting into updates, kept as a list of pieces. */
  function Joined(pieces: seq<bytes>): bytes {
    if pieces == [] then [] else Joined(pieces[..|pieces| - 1]) + pieces[|pieces| - 1]
  }

  lemma JoinedNext(pieces: seq<bytes>, i: nat)
    requires i < |pieces|
    ensures Joined(pieces[..i + 1]) == Joined(pieces[..i]) + pieces[i]
  {
    assert pieces[..i + 1][..i] == pieces[..i];
  }

  lemma {:induction false} JoinedPrefix(pieces: seq<bytes>, i: nat)
    requires i <= |pieces|
    ensures |Joined(pieces[..i])| <= |Joined(pieces)|
    decreases |pieces| - i
  {
    if i < |pieces| {
      JoinedNext(pieces, i);
      JoinedPrefix(pieces, i + 1);
    } else {
      assert pieces[..i] == pieces;
    }
  }

  /** Initialise, update with every piece, finish: the digest of the padded whole, for any split. */
  method HashPieces(pieces: seq<bytes>) returns (digest: bytes)
    requires |Joined(pieces)| < MAX_MESSAGE
    ensures digest == Digest(Joined(pieces))
  {
    hide Absorbed, Leftmost, PaddedWith, Context.Holds;
    var ctx := new Context();
    assert Joined(pieces[..0]) == [];
    for i := 0 to |pieces|
      invariant ctx.Holds(Joined(pieces[..i])) && ctx.len == 8 * |Joined(pieces[..i])|
      invariant |Joined(pieces[..i])| < MAX_MESSAGE && fresh(ctx) && fresh(ctx.h) && fresh(ctx.block)
    {
      JoinedNext(pieces, i);
      JoinedPrefix(pieces, i + 1);
      ctx.Update(pieces[i], Joined(pieces[..i]));
    }
    assert pieces[..|pieces|] == pieces;
    var out := new byte[28](_ => 0);
    ctx.Final(out, Joined(pieces));
    digest := out[..];
  }

  // ----- the key of a password

  const KEY_LEN := 56

  const HEX: bytes := [48, 49, 50, 51, 52, 53, 54, 55, 56, 57, 97, 98, 99, 100, 101, 102]

  function Hex(d: bytes): (k: bytes)
    ensures |k| == 2 * |d|
  {
    if d == [] then [] else Hex(d[..|d| - 1]) + [HEX[d[|d| - 1] / 16], HEX[d[|d| - 1] % 16]]
  }

  lemma HexNothing()
    ensures Hex([]) == []
  {
  }

  lemma HexNext(d: bytes, i: nat)
    requires i < |d|
    ensures Hex(d[..i + 1]) == Hex(d[..i]) + [HEX[d[i] / 16], HEX[d[i] % 16]]
  {
    assert d[..i + 1][..i] == d[..i];
  }

  lemma HexDigits(a: byte, b: byte)
    requires HEX[a / 16] == HEX[b / 16] && HEX[a % 16] == HEX[b % 16]
    ensures a == b
  {
    SameHexDigit(a / 16, b / 16);
    SameHexDigit(a % 16, b % 16);
    assert a == 16 * (a / 16) + a % 16 && b == 16 * (b / 16) + b % 16;
  }

  lemma SameHexDigit(i: nat, j: nat)
    requires i < 16 && j < 16 && HEX[i] == HEX[j]
    ensures i == j
  {
    assert HEX[i] == if i < 10 then 48 + i else 87 + i;
    assert HEX[j] == if j < 10 then 48 + j else 87 + j;
  }

  /** Two keys are equal only if the digests are. */
  lemma {:induction false} HexIsInjective(d: bytes, e: bytes)
    requires |d| == |e| && Hex(d) == Hex(e)
    ensures d == e
  {
    if d != [] {
      var n := |d| - 1;
      assert Hex(d)[..2 * n] == Hex(d[..n]) && Hex(e)[..2 * n] == Hex(e[..n]);
      assert Hex(d)[2 * n] == HEX[d[n] / 16] && Hex(d)[2 * n + 1] == HEX[d[n] % 16];
      assert Hex(e)[2 * n] == HEX[e[n] / 16] && Hex(e)[2 * n + 1] == HEX[e[n] % 16];
      HexIsInjective(d[..n], e[..n]);
      HexDigits(d[n], e[n]);
      assert d == d[..n] + [d[n]] && e == e[..n] + [e[n]];
    }
  }

  /** The number of a lower-case hexadecimal digit: '0'..'9' are 48..57, 'a'..'f' 97..102. */
  function DigitValue(c: byte): int { if 48 <= c <= 57 then c - 48 else if 97 <= c <= 102 then c - 87 else -1 }

  lemma DigitOf(i: nat)
    requires i < 16
    ensures DigitValue(HEX[i]) == i
  {
    assert HEX[i] == if i < 10 then 48 + i else 87 + i;
  }

  /** The i-th octet can be read off the digits at 2i and 2i + 1, the high one first. */
  lemma {:induction false} HexReadsBack(d: bytes, i: nat)
    requires i < |d|
    ensures var high, low := DigitValue(Hex(d)[2 * i]), DigitValue(Hex(d)[2 * i + 1]);
            0 <= high < 16 && 0 <= low < 16 && d[i] == 16 * high + low
  {
    var n := |d| - 1;
    if i < n {
      HexReadsBack(d[..n], i);
      assert Hex(d)[..2 * n] == Hex(d[..n]);
      assert Hex(d)[2 * i] == Hex(d[..n])[2 * i] && Hex(d)[2 * i + 1] == Hex(d[..n])[2 * i + 1];
    } else {
      DigitOf(d[n] / 16);
      DigitOf(d[n] % 16);
      assert Hex(d)[2 * n] == HEX[d[n] / 16] && Hex(d)[2 * n + 1] == HEX[d[n] % 16];
    }
  }

  method MakeKey(password: bytes) returns (key: array<byte>)
    requires |password| < MAX_MESSAGE
    ensures fresh(key) && key[..] == Hex(Digest(password))
  {
    hide Digest, Hex;
    assert Joined([password]) == password by {
      assert [password][..0] == [];
    }
    var digest := HashPieces([password]);
    key := new byte[KEY_LEN](_ => 0);
    HexNothing();
    for i := 0 to 28
      invariant key[..2 * i] == Hex(digest[..i])
    {
      HexNext(digest, i);
      key[2 * i] := HEX[digest[i] / 16];
      key[2 * i + 1] := HEX[digest[i] % 16];
      assert key[..2 * (i + 1)] == key[..2 * i] + [key[2 * i], key[2 * i + 1]];
    }
    assert digest[..28] == digest && key[..56] == key[..];
  }

  /** Bitwise operations on octets, bit by bit. */
  function Xor(a: nat, b: nat): nat
    decreases a + b
  {
    if a == 0 && b == 0 then 0 else (if a % 2 == b % 2 then 0 else 1) + 2 * Xor(a / 2, b / 2)
  }

  function Or(a: nat, b: nat): nat
    decreases a + b
  {
    if a == 0 && b == 0 then 0 else (if a % 2 == 1 || b % 2 == 1 then 1 else 0) + 2 * Or(a / 2, b / 2)
  }

  lemma {:induction false} XorIsZero(a: nat, b: nat)
    ensures Xor(a, b) == 0 <==> a == b
    decreases a + b
  {
    if a != 0 || b != 0 {
      XorIsZero(a / 2, b / 2);
      assert a == 2 * (a / 2) + a % 2 && b == 2 * (b / 2) + b % 2;
    }
  }

  lemma {:induction false} OrIsZero(a: nat, b: nat)
    ensures Or(a, b) == 0 <==> a == 0 && b == 0
    decreases a + b
  {
    if a != 0 || b != 0 { OrIsZero(a / 2, b / 2); }
  }

  /** The comparison without early exit. */
  method KeyEqual(a: bytes, b: bytes) returns (r: bool)
    requires |a| == |b| == KEY_LEN
    ensures r <==> a == b
  {
    var diff := 0;
    for i := 0 to KEY_LEN
      invariant diff == 0 <==> a[..i] == b[..i]
    {
      XorIsZero(a[i], b[i]);
      OrIsZero(diff, Xor(a[i], b[i]));
      assert a[..i + 1] == a[..i] + [a[i]] && b[..i + 1] == b[..i] + [b[i]];
      diff := Or(diff, Xor(a[i], b[i]));
    }
    assert a[..KEY_LEN] == a && b[..KEY_LEN] == b;
    r := diff == 0;
  }
}
