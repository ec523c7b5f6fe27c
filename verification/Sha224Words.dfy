/** What the words of SHA-224 are: big-endian octets, rotations, choices and majorities, and the fractional parts of
    roots of primes (FIPS 180-4, sections 3.1, 4.1.2, 4.2.2 and 5.3.2). */
module Sha224Words {
  import opened Bytes
  import opened Sha224

  // ----- words and octets

  lemma Joined(a: bv32, b: bv32, c: bv32, d: bv32)
    requires a < 256 && b < 256 && c < 256 && d < 256
    ensures (a << 24) | (b << 16) | (c << 8) | d == a * 0x1000000 + b * 0x10000 + c * 0x100 + d
  {
  }

  lemma BelowOctet(a: byte)
    ensures a as bv32 < 256
  {
  }

  /** The first octet is the most significant one. */
  lemma LoadIsBigEndian(b: bytes)
    requires |b| == 4
    ensures Load(b) ==
              (b[0] as bv32) * 0x1000000 + (b[1] as bv32) * 0x10000 + (b[2] as bv32) * 0x100 + b[3] as bv32
  {
    BelowOctet(b[0]);
    BelowOctet(b[1]);
    BelowOctet(b[2]);
    BelowOctet(b[3]);
    Joined(b[0] as bv32, b[1] as bv32, b[2] as bv32, b[3] as bv32);
  }

  lemma OctetOf(v: bv32)
    ensures Octet(v) as bv8 as bv32 == v & 0xff
  {
  }

  lemma Widened(a: byte)
    ensures a as bv32 == a as bv8 as bv32
  {
  }

  lemma Parts(v: bv32)
    ensures (((v >> 24) & 0xff) << 24) | (((v >> 16) & 0xff) << 16) | (((v >> 8) & 0xff) << 8) | (v & 0xff) == v
  {
  }

  lemma OctetIs(v: bv32)
    ensures Octet(v) as bv32 == v & 0xff
  {
    Widened(Octet(v));
    OctetOf(v);
  }

  /** Loading gives back what was stored. */
  lemma StoreIsBigEndian(v: bv32)
    ensures Load(Store(v)) == v
  {
    hide Octet;
    OctetIs(v >> 24);
    OctetIs(v >> 16);
    OctetIs(v >> 8);
    OctetIs(v);
    Parts(v);
  }

  /** Addition drops the carry out of 32 bits. */
  lemma PlusDropsCarry(x: bv32, y: bv32)
    ensures Plus(x, y) as bv64 == (x as bv64 + y as bv64) & 0xffff_ffff
  {
  }

  /** The length at the end of the padding: eight octets, the most significant first. */
  lemma LengthOctets(v: nat)
    requires v < 0x1_0000_0000_0000_0000
    ensures v == U32(PutU64(v)[..4]) * 0x1_0000_0000 + U32(PutU64(v)[4..])
  {
    hide U32, PutU32;
    assert PutU64(v)[..4] == PutU32(v / 0x1_0000_0000) && PutU64(v)[4..] == PutU32(v % 0x1_0000_0000);
  }

  // ----- the functions of section 4.1.2

  lemma Turned(x: bv32)
    ensures Rotr(x, 2) == x.RotateRight(2) && Rotr(x, 13) == x.RotateRight(13) && Rotr(x, 22) == x.RotateRight(22)
    ensures Rotr(x, 6) == x.RotateRight(6) && Rotr(x, 11) == x.RotateRight(11) && Rotr(x, 25) == x.RotateRight(25)
    ensures Rotr(x, 7) == x.RotateRight(7) && Rotr(x, 18) == x.RotateRight(18)
    ensures Rotr(x, 17) == x.RotateRight(17) && Rotr(x, 19) == x.RotateRight(19)
  {
  }

  lemma SigmasRotate(x: bv32)
    ensures Big0(x) == Sum(x.RotateRight(2), x.RotateRight(13), x.RotateRight(22))
    ensures Big1(x) == Sum(x.RotateRight(6), x.RotateRight(11), x.RotateRight(25))
    ensures Small0(x) == Sum(x.RotateRight(7), x.RotateRight(18), x >> 3)
    ensures Small1(x) == Sum(x.RotateRight(17), x.RotateRight(19), x >> 10)
  {
    hide Rotr, Sum;
    Turned(x);
  }

  lemma SumIsXor(x: bv32, y: bv32, z: bv32)
    ensures Sum(x, y, z) == x ^ (z ^ y)
  {
  }

  /** The bits of x choose between y and z. */
  lemma ChChooses(x: bv32, y: bv32, z: bv32)
    ensures Ch(x, y, z) & x == y & x && Ch(x, y, z) & !x == z & !x
  {
  }

  /** Where two words have the same bit, so has the majority. */
  lemma MajIsMajority(x: bv32, y: bv32, z: bv32)
    ensures Maj(x, y, z) == (x & y) | (x & z) | (y & z)
  {
  }

  // ----- the constants of sections 4.2.2 and 5.3.2

  /** The first 64 primes. */
  function Primes(row: nat): (p: seq<nat>)
    requires row < 8
    ensures |p| == 8
  {
    match row
    case 0 => [2, 3, 5, 7, 11, 13, 17, 19]
    case 1 => [23, 29, 31, 37, 41, 43, 47, 53]
    case 2 => [59, 61, 67, 71, 73, 79, 83, 89]
    case 3 => [97, 101, 103, 107, 109, 113, 127, 131]
    case 4 => [137, 139, 149, 151, 157, 163, 167, 173]
    case 5 => [179, 181, 191, 193, 197, 199, 211, 223]
    case 6 => [227, 229, 233, 239, 241, 251, 257, 263]
    case _ => [269, 271, 277, 281, 283, 293, 307, 311]
  }

  /** c is the cube root of p, times 2^32 and rounded down. */
  predicate IsCubeRoot(c: nat, p: nat) {
    c * c * c <= p * 0x1_0000_0000_0000_0000_0000_0000 < (c + 1) * (c + 1) * (c + 1)
  }

  /** c is the square root of p, times 2^64 and rounded down. */
  predicate IsSquareRoot(c: nat, p: nat) {
    c * c <= p * 0x1_0000_0000_0000_0000_0000_0000_0000_0000 < (c + 1) * (c + 1)
  }

  /** The integral part of the cube root of a prime of the table. */
  function Whole(p: nat): nat {
    if p < 8 then 1 else if p < 27 then 2 else if p < 64 then 3 else if p < 125 then 4 else if p < 216 then 5 else 6
  }

  predicate Fraction(p: nat, w: nat) {
    w < 0x1_0000_0000 && IsCubeRoot(Whole(p) * 0x1_0000_0000 + w, p)
  }

  lemma Row0(i: nat)
    requires i < 8
    ensures Fraction(Primes(0)[i], Fractions(0)[i])
  {
  }

  lemma Row1(i: nat)
    requires i < 8
    ensures Fraction(Primes(1)[i], Fractions(1)[i])
  {
  }

  lemma Row2(i: nat)
    requires i < 8
    ensures Fraction(Primes(2)[i], Fractions(2)[i])
  {
  }

  lemma Row3(i: nat)
    requires i < 8
    ensures Fraction(Primes(3)[i], Fractions(3)[i])
  {
  }

  lemma Row4(i: nat)
    requires i < 8
    ensures Fraction(Primes(4)[i], Fractions(4)[i])
  {
  }

  lemma Row5(i: nat)
    requires i < 8
    ensures Fraction(Primes(5)[i], Fractions(5)[i])
  {
  }

  lemma Row6(i: nat)
    requires i < 8
    ensures Fraction(Primes(6)[i], Fractions(6)[i])
  {
  }

  lemma Row7(i: nat)
    requires i < 8
    ensures Fraction(Primes(7)[i], Fractions(7)[i])
  {
  }

  lemma Rows(row: nat, i: nat)
    requires row < 8 && i < 8
    ensures Fraction(Primes(row)[i], Fractions(row)[i])
  {
    hide Fraction, Primes, Fractions;
    match row
    case 0 => Row0(i);
    case 1 => Row1(i);
    case 2 => Row2(i);
    case 3 => Row3(i);
    case 4 => Row4(i);
    case 5 => Row5(i);
    case 6 => Row6(i);
    case 7 => Row7(i);
  }

  /** The first 32 bits of the fractional part of the cube root of p. */
  ghost predicate FirstPart(w: nat, p: nat) {
    exists c: nat :: IsCubeRoot(c, p) && w == c % 0x1_0000_0000
  }

  lemma FirstPartOf(p: nat, w: nat)
    requires Fraction(p, w)
    ensures FirstPart(w, p)
  {
    hide IsCubeRoot, Whole;
    var c := Whole(p) * 0x1_0000_0000 + w;
    assert c % 0x1_0000_0000 == w;
  }

  /** The t-th constant belongs to the t-th prime. */
  lemma ConstantIsCubeRoot(t: nat)
    requires t < 64
    ensures exists w: nat :: FirstPart(w, Primes(t / 8)[t % 8]) && K(t) == w as bv32
  {
    hide Fraction, FirstPart, Primes, Fractions;
    Rows(t / 8, t % 8);
    FirstPartOf(Primes(t / 8)[t % 8], Fractions(t / 8)[t % 8]);
  }

  /** The second 32 bits of the fractional part of the square root of p. */
  ghost predicate SecondPart(w: nat, p: nat) {
    exists c: nat :: IsSquareRoot(c, p) && w == c % 0x1_0000_0000
  }

  lemma SecondPartOf(c: nat, p: nat)
    requires IsSquareRoot(c, p)
    ensures SecondPart(c % 0x1_0000_0000, p)
  {
  }

  lemma FirstInitial()
    ensures SecondPart(0xc1059ed8, 23) && SecondPart(0x367cd507, 29)
    ensures SecondPart(0x3070dd17, 31) && SecondPart(0xf70e5939, 37)
  {
    hide SecondPart;
    SecondPartOf(0x4_cbbb9d5d_c1059ed8, 23);
    SecondPartOf(0x5_629a292a_367cd507, 29);
    SecondPartOf(0x5_9159015a_3070dd17, 31);
    SecondPartOf(0x6_152fecd8_f70e5939, 37);
  }

  lemma LastInitial()
    ensures SecondPart(0xffc00b31, 41) && SecondPart(0x68581511, 43)
    ensures SecondPart(0x64f98fa7, 47) && SecondPart(0xbefa4fa4, 53)
  {
    hide SecondPart;
    SecondPartOf(0x6_67332667_ffc00b31, 41);
    SecondPartOf(0x6_8eb44a87_68581511, 43);
    SecondPartOf(0x6_db0c2e0d_64f98fa7, 47);
    SecondPartOf(0x7_47b5481d_befa4fa4, 53);
  }

  /** The initial hash value belongs to the ninth to the sixteenth prime. */
  lemma InitialIsSquareRoot()
    ensures INITIAL == Working(0xc1059ed8, 0x367cd507, 0x3070dd17, 0xf70e5939, 0xffc00b31, 0x68581511,
              0x64f98fa7, 0xbefa4fa4)
    ensures Primes(1) == [23, 29, 31, 37, 41, 43, 47, 53]
    ensures SecondPart(0xc1059ed8, 23) && SecondPart(0x367cd507, 29)
    ensures SecondPart(0x3070dd17, 31) && SecondPart(0xf70e5939, 37)
    ensures SecondPart(0xffc00b31, 41) && SecondPart(0x68581511, 43)
    ensures SecondPart(0x64f98fa7, 47) && SecondPart(0xbefa4fa4, 53)
  {
    hide SecondPart;
    FirstInitial();
    LastInitial();
  }
}
