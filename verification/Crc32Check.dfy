/** The check value of the CRC-32, computed on 32-bit words. */
module Crc32Check {
  import opened Bytes
  import opened Crc32

  // ---------------------------------------------------------------- words as registers

  function Half(v: bv32): bv32 {
    v >> 1
  }

  predicate Odd(v: bv32) {
    v & 1 == 1
  }

  function XorWords(a: bv32, b: bv32): bv32 {
    a ^ b
  }

  /** The low bits of a word, least significant first. */
  function Low(v: bv32, n: nat): (bits: seq<bool>)
    ensures |bits| == n
    decreases n
  {
    if n == 0 then [] else [Odd(v)] + Low(Half(v), n - 1)
  }

  function Word(v: bv32): Register {
    Low(v, 32)
  }

  lemma XorHalf(a: bv32, b: bv32)
    ensures Half(XorWords(a, b)) == XorWords(Half(a), Half(b))
    ensures Odd(XorWords(a, b)) == (Odd(a) != Odd(b))
  {
  }

  lemma {:induction false} LowXor(a: bv32, b: bv32, n: nat)
    ensures forall i :: 0 <= i < n ==> Low(XorWords(a, b), n)[i] == (Low(a, n)[i] != Low(b, n)[i])
    decreases n
  {
    hide Half, Odd, XorWords;
    if n > 0 {
      XorHalf(a, b);
      LowXor(Half(a), Half(b), n - 1);
    }
  }

  lemma WordXor(a: bv32, b: bv32)
    ensures Word(XorWords(a, b)) == Xor(Word(a), Word(b))
  {
    hide Low, XorWords;
    LowXor(a, b, 32);
  }

  /** No bit of the word is set at `n` or above. */
  predicate Below(v: bv32, n: nat)
    decreases n
  {
    if n == 0 then v == 0 else Below(Half(v), n - 1)
  }

  lemma NothingLeft()
    ensures Half(0) == 0 && !Odd(0)
  {
  }

  lemma {:induction false} LowHalf(v: bv32, n: nat)
    requires Below(v, n + 1)
    ensures Low(v, n + 1)[1..] + [false] == Low(Half(v), n + 1)
    decreases n
  {
    hide Half, Odd;
    NothingLeft();
    if n == 0 {
      assert Below(Half(v), 0);
    } else {
      LowHalf(Half(v), n - 1);
    }
  }

  function Drop(v: bv32): bv32 {
    v >> 4
  }

  lemma FourHalves(v: bv32)
    ensures Half(Half(Half(Half(v)))) == Drop(v)
  {
  }

  lemma BelowFour(v: bv32, n: nat)
    requires n >= 4 && Below(Drop(v), n - 4)
    ensures Below(v, n)
  {
    FourHalves(v);
    hide Half, Drop;
    assert Below(Half(Half(Half(v))), n - 3);
    assert Below(Half(Half(v)), n - 2);
    assert Below(Half(v), n - 1);
  }

  function DropFour(v: bv32): bv32 {
    Drop(Drop(Drop(Drop(v))))
  }

  lemma AllDropped(v: bv32)
    ensures DropFour(DropFour(v)) == 0
  {
  }

  lemma BelowSixteen(v: bv32, n: nat)
    requires n >= 16 && Below(DropFour(v), n - 16)
    ensures Below(v, n)
  {
    hide Below, Drop;
    BelowFour(Drop(Drop(Drop(v))), n - 12);
    BelowFour(Drop(Drop(v)), n - 8);
    BelowFour(Drop(v), n - 4);
    BelowFour(v, n);
  }

  lemma WordBelow(v: bv32)
    ensures Below(v, 32)
  {
    AllDropped(v);
    assert Below(0, 0);
    hide Below, DropFour;
    BelowSixteen(DropFour(v), 16);
    BelowSixteen(v, 32);
  }

  function ShiftWord(v: bv32): bv32 {
    if Odd(v) then XorWords(Half(v), 0xEDB8_8320) else Half(v)
  }

  lemma FourLow(v: bv32, n: nat)
    requires n >= 4
    ensures Low(v, n) == [v & 1 == 1, v & 2 == 2, v & 4 == 4, v & 8 == 8] + Low(Drop(v), n - 4)
  {
    FourHalves(v);
    OddHalves(v);
    hide Half, Odd, Drop;
    var rest := Low(Half(Half(Half(v))), n - 3);
    assert rest == [Odd(Half(Half(Half(v))))] + Low(Drop(v), n - 4);
    assert Low(Half(Half(v)), n - 2) == [Odd(Half(Half(v)))] + rest;
    assert Low(Half(v), n - 1) == [Odd(Half(v))] + Low(Half(Half(v)), n - 2);
  }

  lemma OddHalves(v: bv32)
    ensures Odd(v) == (v & 1 == 1) && Odd(Half(v)) == (v & 2 == 2)
    ensures Odd(Half(Half(v))) == (v & 4 == 4) && Odd(Half(Half(Half(v)))) == (v & 8 == 8)
  {
  }

  /** A word and a number whose lowest four bits agree, and what is left of them. */
  lemma SameNibble(v: bv32, n: nat, width: nat)
    requires width >= 4 && Low(Drop(v), width - 4) == NatToBits(n / 16, width - 4)
    requires (v & 1 == 1) == (n % 2 == 1) && (v & 2 == 2) == (n / 2 % 2 == 1)
    requires (v & 4 == 4) == (n / 4 % 2 == 1) && (v & 8 == 8) == (n / 8 % 2 == 1)
    ensures Low(v, width) == NatToBits(n, width)
  {
    FourBits(n, width);
    FourLow(v, width);
  }

  lemma PolynomialWord()
    ensures Word(0xEDB8_8320) == POLYNOMIAL
  {
    assert Low(0, 0) == NatToBits(0, 0);
    hide NatToBits, Low;
    SameNibble(0xE, 0xE, 4);
    SameNibble(0xED, 0xED, 8);
    SameNibble(0xEDB, 0xEDB, 12);
    SameNibble(0xEDB8, 0xEDB8, 16);
    SameNibble(0xE_DB88, 0xE_DB88, 20);
    SameNibble(0xED_B883, 0xED_B883, 24);
    SameNibble(0xEDB_8832, 0xEDB_8832, 28);
    SameNibble(0xEDB8_8320, 0xEDB8_8320, 32);
  }

  // ---------------------------------------------------------------- nine bytes

  lemma ShiftOnce(v: bv32, n: nat)
    requires n > 0
    ensures ShiftOut(Word(v), n) == ShiftOut(Word(ShiftWord(v)), n - 1)
  {
    WordBelow(v);
    LowHalf(v, 31);
    assert Word(v)[0] == Odd(v);
    PolynomialWord();
    hide Low, Below, POLYNOMIAL, Half, Odd, XorWords;
    WordXor(Half(v), 0xEDB8_8320);
  }

  function ShiftFour(v: bv32): bv32 {
    ShiftWord(ShiftWord(ShiftWord(ShiftWord(v))))
  }

  lemma ShiftFourTimes(v: bv32, n: nat)
    requires n >= 4
    ensures ShiftOut(Word(v), n) == ShiftOut(Word(ShiftFour(v)), n - 4)
  {
    hide ShiftOut, Word, ShiftWord;
    ShiftOnce(v, n);
    ShiftOnce(ShiftWord(v), n - 1);
    ShiftOnce(ShiftWord(ShiftWord(v)), n - 2);
    ShiftOnce(ShiftWord(ShiftWord(ShiftWord(v))), n - 3);
  }

  function AbsorbWord(v: bv32, d: bv32): bv32 {
    ShiftFour(ShiftFour(XorWords(v, d)))
  }

  lemma {:induction false} LowZero(n: nat)
    ensures Low(0, n) == NatToBits(0, n)
  {
    NothingLeft();
    hide Half, Odd;
    if n > 0 {
      LowZero(n - 1);
    }
  }

  /** One ASCII digit, as a byte and as a word. */
  lemma AbsorbDigit(v: bv32, d: bv32, n: byte)
    requires n / 16 == 3 && Drop(d) == 3
    requires (d & 1 == 1) == (n % 2 == 1) && (d & 2 == 2) == (n / 2 % 2 == 1)
    requires (d & 4 == 4) == (n / 4 % 2 == 1) && (d & 8 == 8) == (n / 8 % 2 == 1)
    ensures Absorb(Word(v), n) == Word(AbsorbWord(v, d))
  {
    hide NatToBits, Low, ShiftFour, XorWords;
    LowZero(24);
    SameNibble(3, 3, 28);
    SameNibble(d, n, 32);
    WordXor(v, d);
    ShiftFourTimes(XorWords(v, d), 8);
    ShiftFourTimes(ShiftFour(XorWords(v, d)), 4);
  }

  lemma NineDigits()
    ensures AbsorbWord(0xFFFF_FFFF, 0x31) == 0x7C23_1048 && AbsorbWord(0x7C23_1048, 0x32) == 0xB0AC_BB32
    ensures AbsorbWord(0xB0AC_BB32, 0x33) == 0x77B7_9C2D && AbsorbWord(0x77B7_9C2D, 0x34) == 0x641C_1F5C
    ensures AbsorbWord(0x641C_1F5C, 0x35) == 0x340A_C5E3 && AbsorbWord(0x340A_C5E3, 0x36) == 0xF68D_2C9E
    ensures AbsorbWord(0xF68D_2C9E, 0x37) == 0xAFFC_9660 && AbsorbWord(0xAFFC_9660, 0x38) == 0x651F_2550
    ensures AbsorbWord(0x651F_2550, 0x39) == 0x340B_C6D9
  {
  }

  lemma AbsorbNext(v: bv32, d: bv32, n: byte, rest: Data)
    requires n / 16 == 3 && Drop(d) == 3
    requires (d & 1 == 1) == (n % 2 == 1) && (d & 2 == 2) == (n / 2 % 2 == 1)
    requires (d & 4 == 4) == (n / 4 % 2 == 1) && (d & 8 == 8) == (n / 8 % 2 == 1)
    ensures AbsorbAll(Word(v), [n] + rest) == AbsorbAll(Word(AbsorbWord(v, d)), rest)
  {
    hide AbsorbAll, Absorb, AbsorbWord, Word;
    AbsorbDigit(v, d, n);
    AbsorbFront(Word(v), n, rest);
  }

  lemma DigitsApart()
    ensures Ascii("123456789")
         == [0x31] + ([0x32] + ([0x33] + ([0x34] + ([0x35] + ([0x36] + ([0x37] + ([0x38] + ([0x39] + []))))))))
  {
  }

  lemma NineAbsorbed()
    ensures AbsorbAll(Word(0xFFFF_FFFF), Ascii("123456789")) == Word(0x340B_C6D9)
  {
    hide AbsorbAll, Absorb, AbsorbWord, Word, Ascii;
    DigitsApart();
    NineDigits();
    var r9: Data := [0x39] + [];
    var r8: Data := [0x38] + r9;
    var r7: Data := [0x37] + r8;
    var r6: Data := [0x36] + r7;
    var r5: Data := [0x35] + r6;
    var r4: Data := [0x34] + r5;
    var r3: Data := [0x33] + r4;
    var r2: Data := [0x32] + r3;
    AbsorbNext(0xFFFF_FFFF, 0x31, 0x31, r2);
    AbsorbNext(0x7C23_1048, 0x32, 0x32, r3);
    AbsorbNext(0xB0AC_BB32, 0x33, 0x33, r4);
    AbsorbNext(0x77B7_9C2D, 0x34, 0x34, r5);
    AbsorbNext(0x641C_1F5C, 0x35, 0x35, r6);
    AbsorbNext(0x340A_C5E3, 0x36, 0x36, r7);
    AbsorbNext(0xF68D_2C9E, 0x37, 0x37, r8);
    AbsorbNext(0xAFFC_9660, 0x38, 0x38, r9);
    AbsorbNext(0x651F_2550, 0x39, 0x39, []);
    AbsorbedNone(Word(0x340B_C6D9));
  }

  lemma AbsorbedNone(register: Register)
    ensures AbsorbAll(register, []) == register
  {
  }

  predicate AllSet(bits: seq<bool>) {
    forall i :: 0 <= i < |bits| ==> bits[i]
  }

  lemma FourSet(v: bv32, n: nat)
    requires n >= 4 && v & 15 == 15 && AllSet(Low(Drop(v), n - 4))
    ensures AllSet(Low(v, n))
  {
    FourLow(v, n);
    LowFour(v);
    hide Drop, Low;
  }

  lemma LowFour(v: bv32)
    requires v & 15 == 15
    ensures v & 1 == 1 && v & 2 == 2 && v & 4 == 4 && v & 8 == 8
  {
  }

  lemma AllOnes()
    ensures Word(0xFFFF_FFFF) == Complement(NatToBits(0, 32))
  {
    hide Low, AllSet;
    NoneSet();
    FourSet(0xF, 4);
    FourSet(0xFF, 8);
    FourSet(0xFFF, 12);
    FourSet(0xFFFF, 16);
    FourSet(0xF_FFFF, 20);
    FourSet(0xFF_FFFF, 24);
    FourSet(0xFFF_FFFF, 28);
    FourSet(0xFFFF_FFFF, 32);
    SetIsComplement(Word(0xFFFF_FFFF));
  }

  lemma NoneSet()
    ensures AllSet(Low(0, 0))
  {
  }

  lemma SetIsComplement(r: Register)
    requires AllSet(r)
    ensures r == Complement(NatToBits(0, 32))
  {
    hide NatToBits;
    ZeroBits(32);
  }

  lemma CheckNumber()
    ensures Word(0xCBF4_3926) == NatToBits(0xCBF4_3926, 32)
  {
    assert Low(0, 0) == NatToBits(0, 0);
    hide NatToBits, Low;
    SameNibble(0xC, 0xC, 4);
    SameNibble(0xCB, 0xCB, 8);
    SameNibble(0xCBF, 0xCBF, 12);
    SameNibble(0xCBF4, 0xCBF4, 16);
    SameNibble(0xC_BF43, 0xC_BF43, 20);
    SameNibble(0xCB_F439, 0xCB_F439, 24);
    SameNibble(0xCBF_4392, 0xCBF_4392, 28);
    SameNibble(0xCBF4_3926, 0xCBF4_3926, 32);
  }

  lemma ComplementWord()
    ensures Complement(Word(0x340B_C6D9)) == Word(0xCBF4_3926)
  {
    AllOnes();
    ZeroBits(32);
    WordXor(0x340B_C6D9, 0xFFFF_FFFF);
    assert XorWords(0x340B_C6D9, 0xFFFF_FFFF) == 0xCBF4_3926;
    hide Low, NatToBits, XorWords;
  }

  /** The check value under which CRC catalogues list this CRC. */
  lemma CheckValue()
    ensures Checksum(Ascii("123456789"), 0) == 0xCBF4_3926
  {
    hide Word, AbsorbAll, NatToBits, BitsToNat;
    BitWidths();
    AllOnes();
    NineAbsorbed();
    ComplementWord();
    CheckNumber();
    NatInverse(0xCBF4_3926, 32);
  }
}
