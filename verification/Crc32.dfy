/** The CRC-32 of IEEE 802.3, section 3.2.9, as `binascii.crc32` computes it: reflected polynomial
    0xEDB88320, register complemented on entry and on exit. The register is a little-endian bit array. */
module Crc32 {
  import opened Bytes
  import F = FrameCheck

  type Register = r: seq<bool> | |r| == 32 witness NatToBits(0, 32)

  const POLYNOMIAL: Register := NatToBits(0xEDB8_8320, 32)

  function Xor(a: Register, b: Register): Register {
    seq(32, i requires 0 <= i < 32 => a[i] != b[i])
  }

  function Complement(a: Register): Register {
    seq(32, i requires 0 <= i < 32 => !a[i])
  }

  /** The register after `n` more bits have left it at the low end. */
  function ShiftOut(register: Register, n: nat): Register
    decreases n
  {
    if n == 0 then register
    else
      var shifted := register[1..] + [false];
      ShiftOut(if register[0] then Xor(shifted, POLYNOMIAL) else shifted, n - 1)
  }

  function Absorb(register: Register, b: byte): Register {
    ShiftOut(Xor(register, NatToBits(b, 32)), 8)
  }

  function AbsorbAll(register: Register, data: Data): Register
    decreases |data|
  {
    if data == [] then register else AbsorbAll(Absorb(register, data[0]), data[1..])
  }

  /** `binascii.crc32(data, start)`. */
  function Checksum(data: Data, start: nat): (crc: nat)
    ensures crc < Pow2(32)
  {
    var out := Complement(AbsorbAll(Complement(NatToBits(start, 32)), data));
    BitsInverse(out);
    BitsToNat(out)
  }

  lemma {:induction false} AbsorbAppend(register: Register, a: Data, b: Data)
    ensures AbsorbAll(register, a + b) == AbsorbAll(AbsorbAll(register, a), b)
    decreases |a|
  {
    hide Absorb;
    if a == [] {
      assert a + b == b;
    } else {
      hide AbsorbAll;
      AbsorbAppend(Absorb(register, a[0]), a[1..], b);
      assert a == [a[0]] + a[1..] && a + b == [a[0]] + (a[1..] + b);
      AbsorbFront(register, a[0], a[1..]);
      AbsorbFront(register, a[0], a[1..] + b);
    }
  }

  lemma AbsorbFront(register: Register, first: byte, rest: Data)
    ensures AbsorbAll(register, [first] + rest) == AbsorbAll(Absorb(register, first), rest)
  {
    hide Absorb;
    assert ([first] + rest)[1..] == rest;
  }

  lemma DoubleComplement(r: Register)
    ensures Complement(Complement(r)) == r
  {
  }

  /** Feeding the checksum of one block into the next gives the checksum of both blocks together. */
  lemma Chain(a: Data, b: Data, start: nat)
    ensures Checksum(b, Checksum(a, start)) == Checksum(a + b, start)
  {
    var first := AbsorbAll(Complement(NatToBits(start, 32)), a);
    AbsorbAppend(Complement(NatToBits(start, 32)), a, b);
    BitsInverse(Complement(first));
    DoubleComplement(first);
  }

  /** The checksum after the last image, when every image continues from the previous checksum. */
  function ChainAll(images: seq<Data>, start: nat): nat
    decreases |images|
  {
    if images == [] then start else ChainAll(images[1..], Checksum(images[0], start))
  }

  lemma {:induction false} NatInverse(n: nat, width: nat)
    requires n < Pow2(width)
    ensures BitsToNat(NatToBits(n, width)) == n
  {
    if width > 0 {
      NatInverse(n / 2, width - 1);
      assert NatToBits(n, width)[1..] == NatToBits(n / 2, width - 1);
    }
  }

  lemma {:induction false} ChainAllIsFlat(images: seq<Data>, start: nat)
    requires start < Pow2(32)
    ensures ChainAll(images, start) == Checksum(Flat(images), start)
    decreases |images|
  {
    if images == [] {
      DoubleComplement(NatToBits(start, 32));
      NatInverse(start, 32);
    } else {
      ChainAllIsFlat(images[1..], Checksum(images[0], start));
      Chain(images[0], Flat(images[1..]), start);
    }
  }

  // ---------------------------------------------------------------- the division of the standard

  /** The register after one bit of the message. */
  function Step(register: Register, bit: bool): Register {
    var shifted := register[1..] + [false];
    if register[0] != bit then Xor(shifted, POLYNOMIAL) else shifted
  }

  function Steps(register: Register, bits: seq<bool>): Register
    decreases |bits|
  {
    if bits == [] then register else Steps(Step(register, bits[0]), bits[1..])
  }

  lemma {:induction false} ZeroBits(width: nat)
    ensures NatToBits(0, width) == F.NoBits(width)
  {
    if width > 0 {
      ZeroBits(width - 1);
    }
  }

  lemma {:induction false} WiderByte(n: nat, width: nat, more: nat)
    requires n < Pow2(width)
    ensures NatToBits(n, width + more) == NatToBits(n, width) + F.NoBits(more)
  {
    if width == 0 {
      ZeroBits(more);
    } else {
      WiderByte(n / 2, width - 1, more);
    }
  }

  lemma FirstBit(n: nat, width: nat)
    requires width >= 1
    ensures NatToBits(n, width) == [n % 2 == 1] + NatToBits(n / 2, width - 1)
  {
  }

  lemma Halves(n: nat)
    ensures n / 2 / 2 == n / 4 && n / 4 / 2 == n / 8 && n / 8 / 2 == n / 16
  {
  }

  lemma FourBits(n: nat, width: nat)
    requires width >= 4
    ensures NatToBits(n, width)
         == [n % 2 == 1, n / 2 % 2 == 1, n / 4 % 2 == 1, n / 8 % 2 == 1] + NatToBits(n / 16, width - 4)
  {
    hide NatToBits;
    Halves(n);
    FirstBit(n, width);
    FirstBit(n / 2, width - 1);
    FirstBit(n / 4, width - 2);
    FirstBit(n / 8, width - 3);
  }

  lemma Nibble(n: nat, width: nat)
    requires width >= 4
    ensures NatToBits(n, width) == NatToBits(n, 4) + NatToBits(n / 16, width - 4)
  {
    FourBits(n, width);
    FourBits(n, 4);
    hide NatToBits;
    NoBitsLeft(n / 16);
  }

  lemma NoBitsLeft(n: nat)
    ensures NatToBits(n, 0) == []
  {
  }

  /** The reflected polynomial has the coefficients that the standard lists. */
  lemma GeneratorIsPolynomial()
    ensures POLYNOMIAL == F.Generator()
  {
    hide NatToBits;
    Nibble(0xEDB8_8320, 32);
    Nibble(0xEDB_8832, 28);
    Nibble(0xED_B883, 24);
    Nibble(0xE_DB88, 20);
    Nibble(0xEDB8, 16);
    Nibble(0xEDB, 12);
    Nibble(0xED, 8);
    FourBits(0xEDB8_8320, 4);
    FourBits(0xEDB_8832, 4);
    FourBits(0xED_B883, 4);
    FourBits(0xE_DB88, 4);
    FourBits(0xEDB8, 4);
    FourBits(0xEDB, 4);
    FourBits(0xED, 4);
    FourBits(0xE, 4);
    NoBitsLeft(0);
  }

  /** The register stands for what the division has added to the next 32 coefficients so far. */
  function WithRegister(register: Register, p: F.Polynomial): (q: F.Polynomial)
    requires |p| >= 32
    ensures |q| == |p|
  {
    F.Added(register, p[..32]) + p[32..]
  }

  /** One step of the division is one step of the register. */
  lemma DivisionStep(register: Register, p: F.Polynomial)
    requires |p| > 32
    ensures F.Remainder(WithRegister(register, p)) == F.Remainder(WithRegister(Step(register, p[0]), p[1..]))
  {
    hide F.Remainder, F.Generator, POLYNOMIAL;
    GeneratorIsPolynomial();
    var q, next := WithRegister(register, p), WithRegister(Step(register, p[0]), p[1..]);
    assert q[0] == (register[0] != p[0]);
    assert next == (if q[0] then F.Added(q[1..33], F.Generator()) else q[1..33]) + q[33..];
    RemainderStep(q);
  }

  lemma RemainderStep(p: F.Polynomial)
    requires |p| > 32
    ensures F.Remainder(p)
         == F.Remainder((if p[0] then F.Added(p[1..33], F.Generator()) else p[1..33]) + p[33..])
  {
  }

  lemma {:induction false} DivisionIsSteps(register: Register, bits: seq<bool>)
    ensures F.Remainder(WithRegister(register, bits + F.NoBits(32))) == Steps(register, bits)
    decreases |bits|
  {
    hide Step;
    if bits == [] {
      assert bits + F.NoBits(32) == F.NoBits(32);
      assert F.NoBits(32)[..32] == F.NoBits(32) && F.NoBits(32)[32..] == [];
      var p := WithRegister(register, F.NoBits(32));
      assert p == register;
    } else {
      hide F.Remainder, WithRegister;
      DivisionStep(register, bits + F.NoBits(32));
      assert (bits + F.NoBits(32))[1..] == bits[1..] + F.NoBits(32);
      DivisionIsSteps(Step(register, bits[0]), bits[1..]);
    }
  }

  lemma ShiftOnce(register: Register, bit: bool, tail: seq<bool>)
    requires |tail| == 31
    ensures var sum := Xor(register, [bit] + tail);
      var shifted := sum[1..] + [false];
      (if sum[0] then Xor(shifted, POLYNOMIAL) else shifted) == Xor(Step(register, bit), tail + [false])
  {
    hide POLYNOMIAL;
    var sum := Xor(register, [bit] + tail);
    var shifted, moved := sum[1..] + [false], register[1..] + [false];
    assert forall i :: 0 <= i < 32 ==> shifted[i] == (moved[i] != (tail + [false])[i]);
  }

  lemma OneMoreOut(register: Register, n: nat)
    requires n > 0
    ensures var shifted := register[1..] + [false];
      ShiftOut(register, n) == ShiftOut(if register[0] then Xor(shifted, POLYNOMIAL) else shifted, n - 1)
  {
    hide Xor, POLYNOMIAL;
  }

  lemma XorNothing(register: Register)
    ensures Xor(register, F.NoBits(32)) == register
  {
  }

  /** Adding some bits to the register at once and shifting them out is the same as adding them one by one. */
  lemma {:induction false} ShiftOutIsSteps(register: Register, bits: seq<bool>)
    requires |bits| <= 32
    ensures ShiftOut(Xor(register, bits + F.NoBits(32 - |bits|)), |bits|) == Steps(register, bits)
    decreases |bits|
  {
    hide POLYNOMIAL, Xor, Step, ShiftOut;
    if bits == [] {
      assert bits + F.NoBits(32) == F.NoBits(32);
      XorNothing(register);
      NothingOut(register);
    } else {
      var tail := bits[1..] + F.NoBits(32 - |bits|);
      assert bits + F.NoBits(32 - |bits|) == [bits[0]] + tail;
      assert bits[1..] + F.NoBits(32 - |bits[1..]|) == tail + [false];
      OneMoreOut(Xor(register, [bits[0]] + tail), |bits|);
      ShiftOnce(register, bits[0], tail);
      ShiftOutIsSteps(Step(register, bits[0]), bits[1..]);
    }
  }

  lemma NothingOut(register: Register)
    ensures ShiftOut(register, 0) == register
  {
  }

  lemma {:induction false} StepsAppend(register: Register, a: seq<bool>, b: seq<bool>)
    ensures Steps(register, a + b) == Steps(Steps(register, a), b)
    decreases |a|
  {
    hide Step;
    if a == [] {
      assert a + b == b;
    } else {
      StepsAppend(Step(register, a[0]), a[1..], b);
      assert (a + b)[1..] == a[1..] + b;
    }
  }

  lemma {:induction false} AbsorbAllIsSteps(register: Register, data: Data)
    ensures AbsorbAll(register, data) == Steps(register, F.Sent(data))
    decreases |data|
  {
    if data != [] {
      hide Steps, ShiftOut, Xor, NatToBits;
      BitWidths();
      WiderByte(data[0], 8, 24);
      ShiftOutIsSteps(register, NatToBits(data[0], 8));
      StepsAppend(register, NatToBits(data[0], 8), F.Sent(data[1..]));
      AbsorbAllIsSteps(Absorb(register, data[0]), data[1..]);
    }
  }

  /** For every input the checksum is the frame check sequence of the standard. */
  lemma ChecksumIsFrameCheckSequence(data: Data)
    ensures Checksum(data, 0) == F.FrameCheckSequence(data)
  {
    hide F.Remainder, AbsorbAll, F.Sent, BitsToNat;
    var ones := Complement(NatToBits(0, 32));
    ZeroBits(32);
    AbsorbAllIsSteps(ones, data);
    DivisionIsSteps(ones, F.Sent(data));
    assert WithRegister(ones, F.Sent(data) + F.NoBits(32)) == F.Dividend(data);
    assert F.Complemented(Steps(ones, F.Sent(data))) == Complement(Steps(ones, F.Sent(data)));
  }
}
