/** The FNV-1a bucket hash of the XDP program (main.rs:249-264). A 32-bit state is a
    natural number below 2^32, and multiplication wraps. */
module Fnv {
  import opened Common

  const FNV_PRIME := 0x0100_0193
  const FNV_OFFSET: u32 := 0x811c_9dc5
  const WORD := 0x1_0000_0000

  /** The inverse of the FNV prime modulo 2^32. */
  const FNV_PRIME_INVERSE := 0x359C_449B

  function Pow2(n: nat): nat { if n == 0 then 1 else 2 * Pow2(n - 1) }

  lemma DoubleProduct(a: nat, b: nat)
    ensures 2 * (a * b) == a * (2 * b)
  {
  }

  lemma {:induction false} Pow2Adds(m: nat, n: nat)
    ensures Pow2(m + n) == Pow2(m) * Pow2(n)
  {
    if n > 0 {
      Pow2Adds(m, n - 1);
      assert m + n - 1 == m + (n - 1);
      DoubleProduct(Pow2(m), Pow2(n - 1));
    }
  }

  /** Bitwise exclusive-or of two naturals, least significant bit first. */
  function Xor(a: nat, b: nat): nat
    decreases a + b
  {
    if a == 0 && b == 0 then 0 else 2 * Xor(a / 2, b / 2) + (if a % 2 == b % 2 then 0 else 1)
  }

  lemma {:induction false} XorWidth(a: nat, b: nat, n: nat)
    requires a < Pow2(n) && b < Pow2(n)
    ensures Xor(a, b) < Pow2(n)
  {
    if n > 0 { XorWidth(a / 2, b / 2, n - 1); }
  }

  lemma Pow2Of32()
    ensures Pow2(32) == WORD
  {
    assert Pow2(8) == 256;
    Pow2Adds(8, 8);
    Pow2Adds(16, 16);
  }

  lemma XorFitsWord(a: u32, b: u32)
    ensures Xor(a, b) <= U32_MAX
  {
    Pow2Of32();
    XorWidth(a, b, 32);
  }

  /** Exclusive-or with the same value twice changes nothing. */
  lemma {:induction false} XorTwice(a: nat, b: nat)
    ensures Xor(Xor(a, b), b) == a
    decreases a + b
  {
    if a + b > 0 {
      XorTwice(a / 2, b / 2);
      var x := Xor(a, b);
      assert x / 2 == Xor(a / 2, b / 2);
      assert x % 2 == if a % 2 == b % 2 then 0 else 1;
    }
  }

  lemma {:induction false} XorCommutes(a: nat, b: nat)
    ensures Xor(a, b) == Xor(b, a)
    decreases a + b
  {
    if a + b > 0 { XorCommutes(a / 2, b / 2); }
  }

  /** Exclusive-or of a 32-bit state with a zero-extended octet. */
  function XorOctet(hash: u32, octet: u8): u32 {
    assert Xor(hash, octet) <= U32_MAX by { XorFitsWord(hash, octet); }
    Xor(hash, octet)
  }

  function WrappingMul(a: nat, b: nat): u32 { (a * b) % WORD }

  function Round(hash: u32, octet: u8): u32 { WrappingMul(XorOctet(hash, octet), FNV_PRIME) }

  /** Runs a round backwards. */
  function UndoRound(hash: u32, octet: u8): u32 { XorOctet(WrappingMul(hash, FNV_PRIME_INVERSE), octet) }

  /** Octet i of the big-endian bytes of an IPv4 address. */
  function Octet(ip: u32, i: nat): u8
    requires i < 4
  {
    if i == 0 then ip / 0x100_0000 else if i == 1 then ip / 0x1_0000 % 256
    else if i == 2 then ip / 256 % 256 else ip % 256
  }

  /** The hash state after the first n octets. */
  function State(ip: u32, n: nat): u32
    requires n <= 4
  {
    if n == 0 then FNV_OFFSET else Round(State(ip, n - 1), Octet(ip, n - 1))
  }

  /** The final fold to 16 bits: the high half is exclusive-ored into the low half. */
  function Fold(hash: u32): u16 { Xor(hash, hash / 0x1_0000) % 0x1_0000 }

  function FnvHash(srcIp: u32): u16 { Fold(State(srcIp, 4)) }

  lemma ModUnique(x: int, q: int, r: int)
    requires x == WORD * q + r && 0 <= r < WORD
    ensures x % WORD == r
  {
  }

  /** Multiplying by the prime and then by its inverse, in either order, is the identity. */
  lemma {:induction false} PrimeInverse(x: u32, p: nat, inverse: nat, q: nat)
    requires p * inverse == WORD * q + 1
    ensures WrappingMul(WrappingMul(x, p), inverse) == x
  {
    var k := (x * p) / WORD;
    var y := (x * p) % WORD;
    assert x * p == WORD * k + y;
    calc {
      y * inverse;
      (x * p - WORD * k) * inverse;
      x * (p * inverse) - WORD * (k * inverse);
      x * (WORD * q + 1) - WORD * (k * inverse);
      WORD * (x * q - k * inverse) + x;
    }
    ModUnique(y * inverse, x * q - k * inverse, x);
  }

  /** Each round is a bijection on 32-bit states: the inverse undoes it on both sides. */
  lemma RoundIsBijective(hash: u32, octet: u8)
    ensures UndoRound(Round(hash, octet), octet) == hash
    ensures Round(UndoRound(hash, octet), octet) == hash
  {
    var q := (FNV_PRIME * FNV_PRIME_INVERSE) / WORD;
    PrimeInverse(XorOctet(hash, octet), FNV_PRIME, FNV_PRIME_INVERSE, q);
    XorTwice(hash, octet);
    PrimeInverse(hash, FNV_PRIME_INVERSE, FNV_PRIME, q);
    XorTwice(WrappingMul(hash, FNV_PRIME_INVERSE), octet);
  }

  lemma MulInjective(x: u32, y: u32)
    requires WrappingMul(x, FNV_PRIME) == WrappingMul(y, FNV_PRIME)
    ensures x == y
  {
    var q := (FNV_PRIME * FNV_PRIME_INVERSE) / WORD;
    PrimeInverse(x, FNV_PRIME, FNV_PRIME_INVERSE, q);
    PrimeInverse(y, FNV_PRIME, FNV_PRIME_INVERSE, q);
  }

  lemma XorCancels(hash: nat, a: nat, b: nat)
    requires Xor(hash, a) == Xor(hash, b)
    ensures a == b
  {
    XorCommutes(hash, a);
    XorCommutes(hash, b);
    XorTwice(a, hash);
    XorTwice(b, hash);
  }

  /** One round with different octets from one state gives different states. */
  lemma RoundSeparatesOctets(hash: u32, a: u8, b: u8)
    requires Round(hash, a) == Round(hash, b)
    ensures a == b
  {
    MulInjective(XorOctet(hash, a), XorOctet(hash, b));
    XorCancels(hash, a, b);
  }

  /** Two addresses whose octets agree except at one place reach different 32-bit states. */
  lemma {:induction false} OneOctetApart(a: u32, b: u32, i: nat, n: nat)
    requires i < n <= 4
    requires Octet(a, i) != Octet(b, i)
    requires forall j :: 0 <= j < n && j != i ==> Octet(a, j) == Octet(b, j)
    ensures State(a, n) != State(b, n)
  {
    if n == i + 1 {
      SamePrefix(a, b, i);
      if State(a, n) == State(b, n) { RoundSeparatesOctets(State(a, i), Octet(a, i), Octet(b, i)); }
    } else {
      OneOctetApart(a, b, i, n - 1);
      RoundIsBijective(State(a, n - 1), Octet(a, n - 1));
      RoundIsBijective(State(b, n - 1), Octet(b, n - 1));
    }
  }

  lemma {:induction false} SamePrefix(a: u32, b: u32, n: nat)
    requires n <= 4
    requires forall j :: 0 <= j < n ==> Octet(a, j) == Octet(b, j)
    ensures State(a, n) == State(b, n)
  {
    if n > 0 { SamePrefix(a, b, n - 1); }
  }

  /** Before the fold, the hash tells apart the 256 addresses reached by changing any single octet. */
  lemma SingleOctetNeverCollides(a: u32, b: u32, i: nat)
    requires i < 4
    requires forall j :: 0 <= j < 4 ==> (Octet(a, j) == Octet(b, j) <==> j != i)
    ensures State(a, 4) != State(b, 4)
  {
    OneOctetApart(a, b, i, 4);
  }

  /** The unrolled hash of the program: four exclusive-or and multiply steps on one local. */
  method ComputeKey(srcIp: u32) returns (key: u16)
    ensures key == FnvHash(srcIp)
  {
    var hash := FNV_OFFSET;
    hash := XorOctet(hash, Octet(srcIp, 0));
    hash := WrappingMul(hash, FNV_PRIME);
    assert hash == State(srcIp, 1);
    hash := XorOctet(hash, Octet(srcIp, 1));
    hash := WrappingMul(hash, FNV_PRIME);
    assert hash == State(srcIp, 2);
    hash := XorOctet(hash, Octet(srcIp, 2));
    hash := WrappingMul(hash, FNV_PRIME);
    assert hash == State(srcIp, 3);
    hash := XorOctet(hash, Octet(srcIp, 3));
    hash := WrappingMul(hash, FNV_PRIME);
    key := Xor(hash, hash / 0x1_0000) % 0x1_0000;
  }

  // ---- What octets, exclusive-or and fold mean ----

  lemma {:induction false} XorZero(a: nat)
    ensures Xor(a, 0) == a
  {
    if a > 0 { XorZero(a / 2); }
  }

  /** Exclusive-or with a value of n bits leaves everything above them alone. */
  lemma {:induction false} XorHigh(high: nat, a: nat, b: nat, n: nat)
    requires a < Pow2(n) && b < Pow2(n)
    ensures Xor(high * Pow2(n) + a, b) == high * Pow2(n) + Xor(a, b)
  {
    if n == 0 {
      XorZero(high);
      assert Xor(0, 0) == 0;
    } else {
      var p := Pow2(n - 1);
      assert high * Pow2(n) == 2 * (high * p);
      XorHigh(high, a / 2, b / 2, n - 1);
      assert (2 * (high * p) + a) / 2 == high * p + a / 2;
      assert (2 * (high * p) + a) % 2 == a % 2;
    }
  }

  lemma Pow2Of16()
    ensures Pow2(16) == 0x1_0000
  {
    assert Pow2(8) == 256;
    Pow2Adds(8, 8);
  }

  lemma Halves(high: nat, low: u16)
    ensures (high * 0x1_0000 + low) / 0x1_0000 == high && (high * 0x1_0000 + low) % 0x1_0000 == low
  {
  }

  /** The key is the exclusive-or of the two halves of the state. */
  lemma FoldMixesHalves(high: u16, low: u16)
    ensures Fold(high * 0x1_0000 + low) == Xor(low, high)
  {
    Pow2Of16();
    Halves(high, low);
    XorHigh(high, low, high, 16);
    XorWidth(low, high, 16);
    Halves(high, Xor(low, high));
  }

  /** Bit i of a number, bit 0 being the least significant. */
  predicate Bit(x: nat, i: nat) { if i == 0 then x % 2 == 1 else Bit(x / 2, i - 1) }

  /** Exclusive-or sets exactly the bits in which its operands differ. */
  lemma {:induction false} XorIsBitwise(a: nat, b: nat, i: nat)
    ensures Bit(Xor(a, b), i) <==> Bit(a, i) != Bit(b, i)
    decreases i
  {
    assert Xor(a, b) / 2 == Xor(a / 2, b / 2);
    if i > 0 { XorIsBitwise(a / 2, b / 2, i - 1); }
  }

  /** The octets of an address are its base-256 digits, the most significant first. */
  lemma OctetsAreBigEndian(ip: u32)
    ensures ip == 0x100_0000 * Octet(ip, 0) + 0x1_0000 * Octet(ip, 1) + 0x100 * Octet(ip, 2) + Octet(ip, 3)
  {
    var q1 := ip / 256;
    var q2 := q1 / 256;
    assert q2 == ip / 0x1_0000 && q2 / 256 == ip / 0x100_0000;
    assert ip == 256 * q1 + ip % 256 && q1 == 256 * q2 + q1 % 256 && q2 == 256 * (q2 / 256) + q2 % 256;
  }
}
