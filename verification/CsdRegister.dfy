/**
 The size of an SD card from its CSD register as the card describes it: the register is one
 number of 128 bits, and the fields are ranges of its bits (section 5.3 of the SD Physical
 Layer Simplified Specification).
 */
module CsdRegister {
  import opened Bits
  import opened SdAsm

  // --- The register as a number ------------------------------------------------------------

  /** The first `k` bytes as a number, the first byte highest. */
  function Number(csd: seq<Byte>, k: nat): nat
    requires k <= |csd|
  {
    if k == 0 then 0 else 256 * Number(csd, k - 1) + csd[k - 1]
  }

  /** Bits `hi` down to `lo` of a number. */
  function Field(n: nat, hi: nat, lo: nat): nat
    requires lo <= hi
  {
    Shr(n, lo) % Pow2(hi - lo + 1)
  }

  /** The register: 16 bytes, bit 127 first. */
  function Register(csd: seq<Byte>): nat
    requires |csd| >= 16
  {
    Number(csd, 16)
  }

  function Structure(csd: seq<Byte>): nat
    requires |csd| >= 16
  {
    Field(Register(csd), 127, 126)
  }

  // Version 1 fields.

  function ReadBlLen(csd: seq<Byte>): nat
    requires |csd| >= 16
  {
    Field(Register(csd), 83, 80)
  }

  function CSize(csd: seq<Byte>): nat
    requires |csd| >= 16
  {
    Field(Register(csd), 73, 62)
  }

  function CSizeMult(csd: seq<Byte>): nat
    requires |csd| >= 16
  {
    Field(Register(csd), 49, 47)
  }

  /** The field of version 2. */
  function CSizeLarge(csd: seq<Byte>): nat
    requires |csd| >= 16
  {
    Field(Register(csd), 69, 48)
  }

  // --- Cutting fields out of the bytes -------------------------------------------------------

  lemma {:induction false} ShrSum(n: nat, a: nat, b: nat)
    ensures Shr(n, a + b) == Shr(Shr(n, a), b)
  {
    if b > 0 { ShrSum(n, a, b - 1); }
  }

  lemma Shr4(n: nat)
    ensures Shr(n, 4) == n / 16
  {
    Shr2(n);
    Shr2(n / 4);
    ShrSum(n, 2, 2);
    hide Shr;
    assert n / 4 / 4 == n / 16;
  }

  lemma Shr2(n: nat)
    ensures Shr(n, 2) == n / 4
  {
    assert Shr(n, 1) == Shr(n, 0) / 2 == n / 2;
    Quarter(n);
  }

  lemma Shr6(n: nat)
    ensures Shr(n, 6) == n / 64
  {
    hide Shr;
    ShrSum(n, 2, 4);
    Shr2(n);
    Shr4(n / 4);
    assert n / 4 / 16 == n / 64;
  }

  lemma Shr7(n: nat)
    ensures Shr(n, 7) == n / 128
  {
    assert Shr(n, 7) == Shr(n, 6) / 2;
    hide Shr;
    Shr6(n);
    assert n / 64 / 2 == n / 128;
  }

  /** Leaving out the last byte is shifting by 8. */
  lemma Shr8(n: nat)
    ensures Shr(n, 8) == n / 256
  {
    hide Shr;
    ShrSum(n, 4, 4);
    Shr4(n);
    Shr4(n / 16);
    SixteenTwice(n);
  }

  lemma SixteenTwice(n: nat)
    ensures n / 16 / 16 == n / 256
  {
  }

  lemma {:induction false} Leading(csd: seq<Byte>, k: nat, m: nat)
    requires m <= k <= |csd|
    ensures Shr(Number(csd, k), 8 * m) == Number(csd, k - m)
    decreases m
  {
    if m > 0 {
      hide Shr;
      Leading(csd, k, m - 1);
      ShrSum(Number(csd, k), 8 * (m - 1), 8);
      var i: nat := k - m;
      assert Number(csd, i + 1) == 256 * Number(csd, i) + csd[i];
      hide Number;
      Shr8(Number(csd, i + 1));
      DropByte(Number(csd, i), csd[i]);
    } else {
      assert Shr(Number(csd, k), 0) == Number(csd, k);
    }
  }

  lemma DropByte(n: nat, b: Byte)
    ensures (256 * n + b) / 256 == n
  {
  }

  // --- The fields ---------------------------------------------------------------------------

  lemma NumberStep(csd: seq<Byte>, k: nat)
    requires k < |csd|
    ensures Number(csd, k + 1) == 256 * Number(csd, k) + csd[k]
  {
  }

  lemma StructureBits(csd: seq<Byte>)
    requires |csd| >= 16
    ensures Structure(csd) == csd[0] / 64
  {
    hide Shr;
    hide Pow2;
    Leading(csd, 16, 15);
    ShrSum(Number(csd, 16), 120, 6);
    Shr6(Number(csd, 1));
    NumberStep(csd, 0);
    assert Number(csd, 0) == 0;
    hide Number;
    Powers();
  }

  lemma ReadBlLenBits(csd: seq<Byte>)
    requires |csd| >= 16
    ensures ReadBlLen(csd) == csd[5] % 16
  {
    hide Shr;
    hide Pow2;
    hide Number;
    Leading(csd, 16, 10);
    NumberStep(csd, 5);
    Powers();
    LowNibble(Number(csd, 5), csd[5]);
  }

  lemma LowNibble(n: nat, b: Byte)
    ensures (256 * n + b) % 16 == b % 16
  {
  }

  lemma CSizeBits(csd: seq<Byte>)
    requires |csd| >= 16
    ensures var b6: int, b7: int, b8: int := csd[6], csd[7], csd[8]; CSize(csd) == b6 % 4 * 1024 + b7 * 4 + b8 / 64
  {
    hide Shr;
    hide Pow2;
    hide Number;
    Leading(csd, 16, 7);
    ShrSum(Number(csd, 16), 56, 6);
    Shr6(Number(csd, 9));
    NumberStep(csd, 8);
    NumberStep(csd, 7);
    NumberStep(csd, 6);
    Powers();
    TwelveBits(Number(csd, 6), csd[6], csd[7], csd[8]);
  }

  lemma TwelveBits(n: nat, b6: nat, b7: nat, b8: nat)
    requires b6 < 256 && b7 < 256 && b8 < 256
    ensures (256 * (256 * (256 * n + b6) + b7) + b8) / 64 % 4096 == b6 % 4 * 1024 + b7 * 4 + b8 / 64
  {
    var x := 256 * (256 * n + b6) + b7;
    Over64(x, b8);
    var q, r, t := b6 / 4, b6 % 4, b8 / 64;
    assert b6 == 4 * q + r && t < 4;
    assert 4 * x + t == 4096 * (64 * n + q) + (1024 * r + 4 * b7 + t);
    Mod4096(64 * n + q, 1024 * r + 4 * b7 + t);
  }

  lemma Over64(x: nat, b: nat)
    requires b < 256
    ensures (256 * x + b) / 64 == 4 * x + b / 64
  {
  }

  lemma Mod4096(q: nat, r: nat)
    requires r < 4096
    ensures (4096 * q + r) % 4096 == r
  {
  }

  lemma CSizeMultBits(csd: seq<Byte>)
    requires |csd| >= 16
    ensures var b9: int, b10: int := csd[9], csd[10]; CSizeMult(csd) == b9 % 4 * 2 + b10 / 128
  {
    hide Shr;
    hide Pow2;
    hide Number;
    Leading(csd, 16, 5);
    ShrSum(Number(csd, 16), 40, 7);
    Shr7(Number(csd, 11));
    NumberStep(csd, 10);
    NumberStep(csd, 9);
    Powers();
    ThreeBits(Number(csd, 9), csd[9], csd[10]);
  }

  lemma ThreeBits(n: nat, b9: nat, b10: nat)
    requires b9 < 256 && b10 < 256
    ensures (256 * (256 * n + b9) + b10) / 128 % 8 == b9 % 4 * 2 + b10 / 128
  {
    var x := 256 * n + b9;
    Over128(x, b10);
    var q, r, t := b9 / 4, b9 % 4, b10 / 128;
    assert b9 == 4 * q + r && t < 2;
    assert 2 * x + t == 8 * (64 * n + q) + (2 * r + t);
    Mod8(64 * n + q, 2 * r + t);
  }

  lemma Over128(x: nat, b: nat)
    requires b < 256
    ensures (256 * x + b) / 128 == 2 * x + b / 128
  {
  }

  lemma Mod8(q: nat, r: nat)
    requires r < 8
    ensures (8 * q + r) % 8 == r
  {
  }

  lemma CSizeLargeBits(csd: seq<Byte>)
    requires |csd| >= 16
    ensures var b7: int, b8: int, b9: int := csd[7], csd[8], csd[9];
            CSizeLarge(csd) == b7 % 64 * 0x1_0000 + b8 * 256 + b9
  {
    hide Shr;
    hide Pow2;
    hide Number;
    Leading(csd, 16, 6);
    NumberStep(csd, 9);
    NumberStep(csd, 8);
    NumberStep(csd, 7);
    Powers();
    ManyBits(Number(csd, 7), csd[7], csd[8], csd[9]);
  }

  lemma ManyBits(n: nat, b7: nat, b8: nat, b9: nat)
    requires b7 < 256 && b8 < 256 && b9 < 256
    ensures (256 * (256 * (256 * n + b7) + b8) + b9) % 0x40_0000 == b7 % 64 * 0x1_0000 + b8 * 256 + b9
  {
    var q, r := b7 / 64, b7 % 64;
    assert b7 == 64 * q + r;
    assert 256 * (256 * (256 * n + b7) + b8) + b9 == 0x40_0000 * (4 * n + q) + (0x1_0000 * r + 256 * b8 + b9);
    Mod22(4 * n + q, 0x1_0000 * r + 256 * b8 + b9);
  }

  lemma Mod22(q: nat, r: nat)
    requires r < 0x40_0000
    ensures (0x40_0000 * q + r) % 0x40_0000 == r
  {
  }

  // --- The size of the card ----------------------------------------------------------------------

  /** Version 1: the size in bytes is (C_SIZE + 1) * 2^(C_SIZE_MULT + 2) blocks of 2^READ_BL_LEN
      bytes, as long as that is not less than half a kilobyte for each step of C_SIZE. */
  lemma SizeOfVersion1(csd: seq<Byte>)
    requires |csd| >= 16 && Structure(csd) == 0
    ensures CSizeMult(csd) + ReadBlLen(csd) >= 7 ==>
              CardSize(csd) * 512 == (CSize(csd) + 1) * Pow2(CSizeMult(csd) + 2) * Pow2(ReadBlLen(csd))
    ensures CSizeMult(csd) + ReadBlLen(csd) < 7 ==> CardSize(csd) == 0
  {
    hide Field;
    hide Pow2;
    StructureBits(csd);
    ReadBlLenBits(csd);
    CSizeBits(csd);
    CSizeMultBits(csd);
    CSizeRange(csd);
    ShiftRange(csd);
    var a, b, n := CSizeMult(csd), ReadBlLen(csd), CSize(csd) + 1;
    assert ShiftV1(csd) + 7 == a + b && CSizeV1(csd) == CSize(csd);
    if a + b >= 7 {
      hide CSizeV1;
      hide ShiftV1;
      var k: nat := a + b - 7;
      SmallShift(n, k);
      PowSum(k, 9);
      PowSum(a + 2, b);
      Times512(n, k, Pow2(a + 2), Pow2(b));
    }
  }

  lemma {:induction false} PowSum(a: nat, b: nat)
    ensures Pow2(a + b) == Pow2(a) * Pow2(b)
  {
    if b > 0 {
      PowSum(a, b - 1);
      MulTwo(Pow2(a), Pow2(b - 1));
    }
  }

  lemma MulTwo(x: nat, y: nat)
    ensures 2 * (x * y) == x * (2 * y)
  {
  }

  lemma Times512(n: nat, k: nat, x: nat, y: nat)
    requires Pow2(k) * Pow2(9) == x * y
    ensures n * Pow2(k) * 512 == n * x * y
  {
    Powers();
    var p := Pow2(k);
    hide Pow2;
    assert n * p * 512 == n * (p * 512);
    assert n * x * y == n * (x * y);
  }

  /** The version 1 size fits its 32 bits. */
  lemma SmallShift(n: nat, k: nat)
    requires n <= 4096 && k <= 15
    ensures Shl32(n, k) == n * Pow2(k)
  {
    hide Pow2;
    PowBelow(k, 15);
    Powers();
    Product(n, Pow2(k));
  }

  lemma Product(n: nat, p: nat)
    requires n <= 4096 && p <= 0x8000
    ensures n * p < WORD32
  {
    var m: nat := 4096 - n;
    assert (n + m) * p == n * p + m * p;
    NonNegative(m, p);
  }

  lemma NonNegative(m: nat, p: nat)
    ensures m * p >= 0
  {
  }

  lemma {:induction false} PowBelow(a: nat, b: nat)
    requires a <= b
    ensures Pow2(a) <= Pow2(b)
    decreases b - a
  {
    if a < b { PowBelow(a, b - 1); }
  }

  /** Version 2: the size in blocks is (C_SIZE + 1) * 1024, in 32 bits; the two bits above the
      field are shifted out. */
  lemma SizeOfVersion2(csd: seq<Byte>)
    requires |csd| >= 16 && Structure(csd) == 1
    ensures CardSize(csd) == (CSizeLarge(csd) + 1) * 1024 % WORD32
    ensures CSizeLarge(csd) < 0x3F_FFFF ==> CardSize(csd) == (CSizeLarge(csd) + 1) * 1024
  {
    hide Field;
    hide Pow2;
    hide Word;
    StructureBits(csd);
    CSizeLargeBits(csd);
    Powers();
    LargeSize(csd[7], csd[8], csd[9]);
  }

  lemma LargeSize(b7: nat, b8: nat, b9: nat)
    requires b7 < 256 && b8 < 256 && b9 < 256
    ensures (Word(0, b9, b8, b7) + 0x100) % WORD32 * 4 % WORD32 ==
            (b7 % 64 * 0x1_0000 + b8 * 256 + b9 + 1) * 1024 % WORD32
  {
    var q, r := b7 / 64, b7 % 64;
    assert b7 == 64 * q + r;
    var small := (r * 0x1_0000 + b8 * 256 + b9 + 1) * 1024;
    var w := Word(0, b9, b8, b7) + 0x100;
    assert 4 * w == small + WORD32 * q;
    hide Word;
    ModShift(small, q);
    FourTimes(w);
  }

  lemma FourTimes(w: nat)
    ensures w % WORD32 * 4 % WORD32 == 4 * w % WORD32
  {
    var d, r := w / WORD32, w % WORD32;
    assert 4 * w == r * 4 + WORD32 * (4 * d);
    ModShift(r * 4, 4 * d);
  }

  lemma SizeOfOtherVersions(csd: seq<Byte>)
    requires |csd| >= 16 && Structure(csd) > 1
    ensures CardSize(csd) == 0
  {
    hide Field;
    StructureBits(csd);
  }
}
