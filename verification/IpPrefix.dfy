/** Network masks and prefix lengths of IPv4 words and IPv6 octet strings. */
module IpPrefix {
  import opened Bytes

  const WORD := 0x1_0000_0000
  const TOP_BIT := 0x8000_0000

  // ----- IPv4

  /** 0xffffffff << (32 - prefix), truncated to 32 bits; 0 for prefix 0. */
  function Mask4(prefix: nat): nat
    requires prefix <= 32
  {
    if prefix == 0 then 0 else ((WORD - 1) * Pow2(32 - prefix)) % WORD
  }

  /** The number of leading one bits of a 32-bit word. */
  function LeadingOnes(mask: nat): nat
    requires mask < WORD
    decreases mask
  {
    if BitAnd(mask, TOP_BIT) == 0 then 0
    else
      TopBitSet(mask);
      1 + LeadingOnes(2 * mask % WORD)
  }

  lemma Pow2Values()
    ensures Pow2(31) == TOP_BIT && Pow2(32) == WORD
  {
    assert Pow2(8) == 0x100;
    assert Pow2(16) == 0x1_0000;
    assert Pow2(24) == 0x100_0000;
  }

  lemma {:induction false} SingleBit(a: nat, k: nat)
    requires a < 2 * Pow2(k)
    ensures BitAnd(a, Pow2(k)) != 0 <==> a >= Pow2(k)
  {
    var p := Pow2(k);
    if k == 0 {
      assert a == 0 || a == 1;
      assert BitAnd(1, 1) == 1;
    } else if a > 0 {
      SingleBit(a / 2, k - 1);
      assert p == 2 * Pow2(k - 1) && p / 2 == Pow2(k - 1) && p % 2 == 0;
      assert BitAnd(a, p) == 2 * BitAnd(a / 2, p / 2);
    }
  }

  lemma TopBitSet(mask: nat)
    requires mask < WORD
    ensures BitAnd(mask, TOP_BIT) != 0 <==> mask >= TOP_BIT
    ensures mask >= TOP_BIT ==> 2 * mask % WORD == 2 * mask - WORD < mask
  {
    Pow2Values();
    SingleBit(mask, 31);
  }

  lemma MaskValue(prefix: nat)
    requires prefix <= 32
    ensures Mask4(prefix) == WORD - Pow2(32 - prefix) < WORD
  {
    Pow2Values();
    if prefix > 0 {
      var p := Pow2(32 - prefix);
      Pow2Monotone(32 - prefix, 31);
      assert (WORD - 1) * p == (p - 1) * WORD + (WORD - p);
      RemainderOf((WORD - 1) * p, p - 1, WORD, WORD - p);
    }
  }

  lemma {:induction false} Pow2Monotone(a: nat, b: nat)
    requires a <= b
    ensures Pow2(a) <= Pow2(b)
  {
    if a < b { Pow2Monotone(a, b - 1); }
  }

  /** The prefix length of a contiguous mask is recovered exactly. */
  lemma {:induction false} PrefixOfMask4(prefix: nat)
    requires prefix <= 32
    ensures Mask4(prefix) < WORD && LeadingOnes(Mask4(prefix)) == prefix
  {
    Pow2Values();
    MaskValue(prefix);
    var mask := Mask4(prefix);
    TopBitSet(mask);
    if prefix > 0 {
      PrefixOfMask4(prefix - 1);
      MaskValue(prefix - 1);
      Pow2Monotone(32 - prefix, 31);
      assert 2 * mask % WORD == Mask4(prefix - 1);
    }
  }

  lemma DoubleFactor(x: nat, y: nat)
    ensures (2 * x) * y == 2 * (x * y)
  {
  }

  lemma {:induction false} Pow2Sum(a: nat, b: nat)
    ensures Pow2(a + b) == Pow2(a) * Pow2(b)
  {
    if a > 0 {
      Pow2Sum(a - 1, b);
      DoubleFactor(Pow2(a - 1), Pow2(b));
    }
  }

  /** A word whose low j bits are clear has at most 32 - j leading ones. */
  lemma {:induction false} LeadingBound(mask: nat, j: nat, q: nat)
    requires mask < WORD && j <= 32 && mask == q * Pow2(j)
    ensures LeadingOnes(mask) <= 32 - j
    decreases 32 - j
  {
    TopBitSet(mask);
    if j == 32 {
      Pow2Values();
      if q > 0 {
        MultipleIsFar(q, WORD);
        assert false;
      }
    } else if mask >= TOP_BIT {
      HalfWord(j);
      ShiftMultiple(mask, q, Pow2(j), Pow2(31 - j));
      LeadingBound(2 * mask % WORD, j + 1, q - Pow2(31 - j));
    }
  }

  lemma HalfWord(j: nat)
    requires j < 32
    ensures Pow2(31 - j) * (2 * Pow2(j)) == WORD
  {
    Pow2Values();
    Pow2Sum(31 - j, j + 1);
    assert Pow2(j + 1) == 2 * Pow2(j);
  }

  lemma ShiftMultiple(mask: nat, q: nat, p: nat, half: nat)
    requires p > 0 && mask == q * p && mask >= TOP_BIT && half * (2 * p) == WORD
    ensures q >= half && 2 * mask - WORD == (q - half) * (2 * p)
  {
    assert (q - half) * (2 * p) == 2 * (q * p) - half * (2 * p);
    NonNegativeFactor(q - half, 2 * p);
  }

  lemma NonNegativeFactor(x: int, y: int)
    requires y > 0 && x * y >= 0
    ensures x >= 0
  {
    if x < 0 { MultipleIsFar(x, y); }
  }

  method Ipv4Prefix(mask: nat) returns (n: nat)
    requires mask < WORD
    ensures n == LeadingOnes(mask)
  {
    n := 0;
    var m: nat := mask;
    while BitAnd(m, TOP_BIT) != 0
      invariant m < WORD && n + LeadingOnes(m) == LeadingOnes(mask)
      decreases m
    {
      TopBitSet(m);
      n := n + 1;
      m := 2 * m % WORD;
    }
  }

  // ----- IPv6

  /** The first `prefix` bits of an octet string, the rest cleared. */
  function MaskBytes(src: bytes, prefix: nat): (r: bytes)
    ensures |r| == |src|
  {
    if src == [] then []
    else if prefix >= 8 then [src[0]] + MaskBytes(src[1..], prefix - 8)
    else [PartByte(src[0], prefix)] + MaskBytes(src[1..], 0)
  }

  /** src & (0xff << (8 - k)), cast back to an octet. */
  function PartByte(b: byte, k: nat): byte
    requires k < 8
  {
    if k == 0 then 0 else BitAnd(b, 255 * Pow2(8 - k))
  }

  function Ones(n: nat): (r: bytes)
    ensures |r| == n
  {
    seq(n, _ => 255)
  }

  function LeadingFrom(b: byte, bit: byte): nat {
    if bit == 0 || BitAnd(b, bit) == 0 then 0 else 1 + LeadingFrom(b, bit / 2)
  }

  function PrefixOf(mask: bytes): nat {
    if mask == [] then 0
    else
      var k := LeadingFrom(mask[0], 128);
      if k == 8 then 8 + PrefixOf(mask[1..]) else k
  }

  lemma {:induction false} AndAll(b: nat, k: nat)
    requires b < Pow2(k)
    ensures BitAnd(b, Pow2(k) - 1) == b
  {
    if k > 0 {
      var p := Pow2(k - 1);
      AndAll(b / 2, k - 1);
      OddMask(b, p);
    }
  }

  lemma {:induction false} AndCommutes(a: nat, b: nat)
    ensures BitAnd(a, b) == BitAnd(b, a)
  {
    if a > 0 && b > 0 { AndCommutes(a / 2, b / 2); }
  }

  lemma PartOfOnes(k: nat)
    requires 0 < k < 8
    ensures PartByte(255, k) == 256 - Pow2(8 - k)
  {
    var p := Pow2(8 - k);
    AndCommutes(255, 255 * p);
    OctetMask(255 * p);
    PowerIndex(8 - k);
    HighBits(p);
  }

  lemma HighBits(p: nat)
    requires 0 < p < 256
    ensures (255 * p) % 256 == 256 - p
  {
    assert 255 * p == 256 * (p - 1) + (256 - p);
  }

  lemma OctetMask(x: nat)
    ensures BitAnd(x, 255) == x % 256
  {
    assert Pow2(8) == 256;
    MaskIsRemainder(x, 8);
  }

  lemma {:induction false} BitTest(a: nat, k: nat)
    ensures BitAnd(a, Pow2(k)) != 0 <==> (a / Pow2(k)) % 2 == 1
  {
    if k == 0 {
      if a > 0 { assert BitAnd(a, 1) == a % 2 + 2 * BitAnd(a / 2, 0); }
    } else {
      BitTest(a / 2, k - 1);
      AndEven(a, Pow2(k - 1));
      HalveTwice(a, Pow2(k - 1));
    }
  }

  lemma AndEven(b: nat, c: nat)
    ensures BitAnd(b, 2 * c) == 2 * BitAnd(b / 2, c)
  {
    if b > 0 && c > 0 {
      var d := 2 * c;
      assert d / 2 == c && d % 2 == 0;
      assert BitAnd(b, d) == 2 * BitAnd(b / 2, d / 2);
    }
  }

  lemma HalveTwice(b: nat, p: nat)
    requires p > 0
    ensures (b / 2) / p == b / (2 * p)
  {
    HalveRemainder(b, p);
    var x, y := (b / 2) / p, b / (2 * p);
    assert b / 2 == x * p + (b / 2) % p;
    assert b == y * (2 * p) + b % (2 * p);
    assert b == 2 * (b / 2) + b % 2;
    assert (2 * p) * x == (2 * p) * y;
  }

  lemma LeadingStep(b: byte, bit: byte, k: nat)
    requires bit == Pow2(k)
    ensures LeadingFrom(b, bit) == if (b / bit) % 2 == 1 then 1 + LeadingFrom(b, bit / 2) else 0
  {
    BitTest(b, k);
  }

  /** Eight bit tests from the top, in plain arithmetic. */
  lemma CountOnes(b: byte, l: seq<int>)
    requires |l| == 8
    requires l[0] == if b % 2 == 1 then 1 else 0
    requires l[1] == if (b / 2) % 2 == 1 then 1 + l[0] else 0
    requires l[2] == if (b / 4) % 2 == 1 then 1 + l[1] else 0
    requires l[3] == if (b / 8) % 2 == 1 then 1 + l[2] else 0
    requires l[4] == if (b / 16) % 2 == 1 then 1 + l[3] else 0
    requires l[5] == if (b / 32) % 2 == 1 then 1 + l[4] else 0
    requires l[6] == if (b / 64) % 2 == 1 then 1 + l[5] else 0
    requires l[7] == if (b / 128) % 2 == 1 then 1 + l[6] else 0
    ensures (b == 0 ==> l[7] == 0) && (b == 128 ==> l[7] == 1) && (b == 192 ==> l[7] == 2)
    ensures (b == 224 ==> l[7] == 3) && (b == 240 ==> l[7] == 4) && (b == 248 ==> l[7] == 5)
    ensures (b == 252 ==> l[7] == 6) && (b == 254 ==> l[7] == 7) && (b == 255 ==> l[7] == 8)
  {
  }

  lemma LeadingOctet(b: byte)
    ensures var n := LeadingFrom(b, 128);
            && (b == 0 ==> n == 0) && (b == 128 ==> n == 1) && (b == 192 ==> n == 2)
            && (b == 224 ==> n == 3) && (b == 240 ==> n == 4) && (b == 248 ==> n == 5)
            && (b == 252 ==> n == 6) && (b == 254 ==> n == 7) && (b == 255 ==> n == 8)
  {
    SmallPowers();
    LeadingStep(b, 1, 0);
    LeadingStep(b, 2, 1);
    LeadingStep(b, 4, 2);
    LeadingStep(b, 8, 3);
    LeadingStep(b, 16, 4);
    LeadingStep(b, 32, 5);
    LeadingStep(b, 64, 6);
    LeadingStep(b, 128, 7);
    CountOnes(b, [LeadingFrom(b, 1), LeadingFrom(b, 2), LeadingFrom(b, 4), LeadingFrom(b, 8),
                  LeadingFrom(b, 16), LeadingFrom(b, 32), LeadingFrom(b, 64), LeadingFrom(b, 128)]);
  }

  lemma PartialOctets(k: nat)
    requires k < 8
    ensures LeadingFrom(PartByte(255, k), 128) == k
  {
    if k > 0 { PartOfOnes(k); }
    LeadingHigh(PartByte(255, k), k);
  }

  lemma LeadingHigh(b: byte, k: nat)
    requires k < 8 && b == if k == 0 then 0 else 256 - Pow2(8 - k)
    ensures LeadingFrom(b, 128) == k
  {
    LeadingOctet(b);
    if k > 0 { PowerIndex(8 - k); }
  }

  lemma PowerIndex(j: nat)
    requires 0 < j < 8
    ensures var p := Pow2(j);
            && (p == 2 || p == 4 || p == 8 || p == 16 || p == 32 || p == 64 || p == 128)
            && (p == 2 ==> j == 1) && (p == 4 ==> j == 2) && (p == 8 ==> j == 3) && (p == 16 ==> j == 4)
            && (p == 32 ==> j == 5) && (p == 64 ==> j == 6) && (p == 128 ==> j == 7)
  {
    SmallPowers();
  }

  lemma SmallPowers()
    ensures Pow2(1) == 2 && Pow2(2) == 4 && Pow2(3) == 8 && Pow2(4) == 16
    ensures Pow2(5) == 32 && Pow2(6) == 64 && Pow2(7) == 128
  {
  }

  /** The prefix length of a contiguous octet mask is recovered exactly. */
  lemma {:induction false} PrefixOfMaskBytes(n: nat, prefix: nat)
    requires prefix <= 8 * n
    ensures PrefixOf(MaskBytes(Ones(n), prefix)) == prefix
  {
    hide LeadingFrom, PartByte, Pow2, BitAnd;
    if n > 0 {
      assert Ones(n)[1..] == Ones(n - 1);
      if prefix >= 8 {
        LeadingOctet(255);
        PrefixOfMaskBytes(n - 1, prefix - 8);
      } else {
        PartialOctets(prefix);
      }
    }
  }

  method Ipv6Prefix(mask: bytes) returns (n: nat)
    ensures n == PrefixOf(mask)
  {
    n := 0;
    for i := 0 to |mask|
      invariant n + PrefixOf(mask[i..]) == PrefixOf(mask)
    {
      var bit: byte := 128;
      ghost var before := n;
      ghost var full := LeadingFrom(mask[i], 128);
      while bit != 0
        invariant BitsLeft(bit, n - before)
        invariant n - before + LeadingFrom(mask[i], bit) == full
      {
        if BitAnd(mask[i], bit) == 0 {
          return;
        }
        n := n + 1;
        bit := bit / 2;
      }
      assert mask[i..][1..] == mask[i + 1..];
    }
  }

  ghost predicate BitsLeft(bit: byte, k: int) {
    0 <= k <= 8 && bit == if k == 8 then 0 else Pow2(7 - k)
  }

  method Ipv6Mask(src: bytes, prefix: nat) returns (dst: array<byte>)
    ensures fresh(dst) && dst[..] == MaskBytes(src, prefix)
  {
    hide MaskBytes, Pow2, BitAnd;
    dst := new byte[|src|](_ => 0);
    var left := prefix;
    ghost var want := MaskBytes(src, prefix);
    assert src[0..] == src && want[0..] == want;
    for i := 0 to |src|
      invariant dst[..i] == want[..i]
      invariant MaskBytes(src[i..], left) == want[i..]
    {
      MaskNext(src[i..], left);
      assert src[i..][1..] == src[i + 1..];
      assert want[i..][0] == want[i] && want[i..][1..] == want[i + 1..];
      if left >= 8 {
        dst[i] := src[i];
        left := left - 8;
      } else if left == 0 {
        dst[i] := 0;
      } else {
        dst[i] := BitAnd(src[i], 255 * Pow2(8 - left));
        left := 0;
      }
      assert dst[i] == want[i];
    }
    assert dst[..|src|] == dst[..];
  }

  lemma MaskNext(src: bytes, prefix: nat)
    requires src != []
    ensures prefix >= 8 ==> MaskBytes(src, prefix) == [src[0]] + MaskBytes(src[1..], prefix - 8)
    ensures prefix < 8 ==> MaskBytes(src, prefix) == [PartByte(src[0], prefix)] + MaskBytes(src[1..], 0)
  {
  }

  /** Octet-wise AND. */
  function AndBytes(a: bytes, b: bytes): (r: bytes)
    requires |a| == |b|
    ensures |r| == |a|
  {
    if a == [] then [] else [BitAnd(a[0], b[0]) as byte] + AndBytes(a[1..], b[1..])
  }

  lemma AndFull(b: byte)
    ensures BitAnd(b, 255) == b
  {
    assert Pow2(8) == 256;
    AndAll(b, 8);
  }

  /** Masking by a contiguous octet mask is keeping the first bits. */
  lemma {:induction false} AndIsMask(a: bytes, prefix: nat)
    ensures AndBytes(a, MaskBytes(Ones(|a|), prefix)) == MaskBytes(a, prefix)
  {
    hide BitAnd, Pow2;
    if a != [] {
      var ones, m := Ones(|a|), MaskBytes(Ones(|a|), prefix);
      assert ones[1..] == Ones(|a| - 1) && ones[0] == 255;
      MaskNext(ones, prefix);
      MaskNext(a, prefix);
      AndFull(a[0]);
      if prefix >= 8 {
        AndIsMask(a[1..], prefix - 8);
      } else {
        AndIsMask(a[1..], 0);
        PartAnd(a[0], prefix);
      }
      assert AndBytes(a, m) == [BitAnd(a[0], m[0]) as byte] + AndBytes(a[1..], m[1..]);
    }
  }

  lemma PartAnd(b: byte, k: nat)
    requires k < 8
    ensures BitAnd(b, PartByte(255, k)) == PartByte(b, k)
  {
    if k > 0 {
      AndFull(b);
      BitAndAssociative(b, 255, 255 * Pow2(8 - k));
    }
  }
}
