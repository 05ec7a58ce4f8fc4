/**
 The two 6502 routines of os/drivers/sdcard/sdasm.S, instruction by instruction on bytes and
 a carry, against the 32-bit C forms that os/drivers/sdcard/sdcard.c keeps beside them.
 */
module SdAsm {
  import opened Bits

  type Byte = x: int | 0 <= x < 256
  type Bit = x: int | 0 <= x < 2

  const WORD32 := 0x1_0000_0000

  /** A 32-bit value from its bytes, lowest first. */
  function Word(b0: int, b1: int, b2: int, b3: int): int { b0 + 0x100 * b1 + 0x1_0000 * b2 + 0x100_0000 * b3 }

  /** `x << n` on an unsigned 32-bit value. */
  function Shl32(x: nat, n: nat): nat { x * Pow2(n) % WORD32 }

  // --- Instructions that set the carry ------------------------------------------------

  /** Result byte and carry. */
  datatype Flagged = Flagged(value: Byte, carry: Bit)

  function Adc(a: Byte, m: Byte, c: Bit): Flagged { Flagged((a + m + c) % 256, (a + m + c) / 256) }

  function Sbc(a: Byte, m: Byte, c: Bit): Flagged
  {
    var t := a - m - (1 - c);
    Flagged(t % 256, if t >= 0 then 1 else 0)
  }

  function Rol(v: Byte, c: Bit): Flagged { Flagged((2 * v + c) % 256, (2 * v + c) / 256) }

  function Asl(v: Byte): Flagged { Rol(v, 0) }

  // --- The C forms ------------------------------------------------------------------------

  /** sd_cluster_to_block in C. */
  function ClusterToBlock(cluster: nat, count: nat, shift: nat, offset: nat): nat
  {
    if cluster < 2 then 0
    else if cluster - 2 >= count then 0
    else (offset + Shl32(cluster - 2, shift)) % WORD32
  }

  /** The C_SIZE field of a version 1 CSD register. */
  function CSizeV1(csd: seq<Byte>): nat
    requires |csd| >= 11
  {
    var b6: int, b7: int, b8: int := csd[6], csd[7], csd[8];
    b6 % 4 * 1024 + b7 * 4 + b8 / 64
  }

  /** C_SIZE_MULT + READ_BL_LEN - 7. */
  function ShiftV1(csd: seq<Byte>): int
    requires |csd| >= 11
  {
    var b5: int, b9: int, b10: int := csd[5], csd[9], csd[10];
    b9 % 4 * 2 + b10 / 128 + b5 % 16 - 7
  }

  /** Blocks on the card according to its CSD register; 0 where detection fails, and where the
      C form has no defined value because its shift count is negative. */
  function CardSize(csd: seq<Byte>): nat
    requires |csd| >= 11
  {
    if csd[0] / 64 == 0 then
      if ShiftV1(csd) < 0 then 0 else Shl32(CSizeV1(csd) + 1, ShiftV1(csd))
    else if csd[0] / 64 == 1 then
      Shl32((Word(0, csd[9], csd[8], csd[7]) + 0x100) % WORD32, 2)
    else 0
  }

  /** What sd_get_size leaves of the register in the block buffer: a version 1 register is
      shifted in place. */
  function CsdLeft(csd: seq<Byte>): (r: seq<Byte>)
    requires |csd| >= 11
    ensures |r| == |csd|
  {
    if csd[0] / 64 != 0 then csd
    else
      var r8 := Asl(csd[8]);
      var r7 := Rol(csd[7], r8.carry);
      var r6 := Rol(csd[6], r7.carry);
      csd[8 := Asl(r8.value).value][7 := r7.value][6 := r6.value][10 := Asl(csd[10]).value]
  }

  /** Bytes 6 to 8 are shifted by one as a number of 24 bits, byte 8 once more on its own, byte 10
      on its own, and the rest of a version 1 register stays. */
  lemma CsdLeftBytes(csd: seq<Byte>)
    requires |csd| >= 11 && csd[0] / 64 == 0
    ensures var l, b8: int, b10: int := CsdLeft(csd), csd[8], csd[10];
            && Word(2 * b8 % 0x100, l[7], l[6], 0) == 2 * Word(b8, csd[7], csd[6], 0) % 0x100_0000
            && l[8] == 4 * b8 % 0x100 && l[10] == 2 * b10 % 0x100
    ensures forall i :: 0 <= i < |csd| && i != 6 && i != 7 && i != 8 && i != 10 ==> CsdLeft(csd)[i] == csd[i]
  {
    var r8 := Asl(csd[8]);
    var r7 := Rol(csd[7], r8.carry);
    var r6 := Rol(csd[6], r7.carry);
    RolExact(csd[8], 0);
    RolExact(csd[7], r8.carry);
    RolExact(csd[6], r7.carry);
    ShiftedTwice(csd[8]);
    ShiftedTwice(csd[10]);
    hide Rol;
    Mod24(Word(r8.value, r7.value, r6.value, 0), r6.carry);
  }

  lemma Mod24(w: int, c: int)
    requires 0 <= w < 0x100_0000
    ensures (w + 0x100_0000 * c) % 0x100_0000 == w
  {
  }

  lemma ShiftedTwice(b: Byte)
    ensures var x: int := b; Asl(b).value == 2 * x % 0x100 && Asl(Asl(b).value).value == 4 * x % 0x100
  {
  }

  // --- Shifting ---------------------------------------------------------------------------

  /** asl, rol, rol, rol shift the four bytes as one word. */
  lemma ShiftWord(b0: Byte, b1: Byte, b2: Byte, b3: Byte)
    ensures var r0 := Asl(b0);
            var r1 := Rol(b1, r0.carry);
            var r2 := Rol(b2, r1.carry);
            var r3 := Rol(b3, r2.carry);
            Word(r0.value, r1.value, r2.value, r3.value) == 2 * Word(b0, b1, b2, b3) % WORD32
  {
    var r0 := Asl(b0);
    var r1 := Rol(b1, r0.carry);
    var r2 := Rol(b2, r1.carry);
    var r3 := Rol(b3, r2.carry);
    RolExact(b0, 0);
    RolExact(b1, r0.carry);
    RolExact(b2, r1.carry);
    RolExact(b3, r2.carry);
    hide Rol;
    Reduced(Word(r0.value, r1.value, r2.value, r3.value), r3.carry, 2 * Word(b0, b1, b2, b3));
  }

  lemma ModShift(a: int, q: int)
    ensures (a + WORD32 * q) % WORD32 == a % WORD32
  {
    var k, r := a / WORD32, a % WORD32;
    assert a + WORD32 * q == WORD32 * (k + q) + r;
  }

  lemma ModTwice(x: nat)
    ensures 2 * (x % WORD32) % WORD32 == 2 * x % WORD32
  {
    var q := x / WORD32;
    assert 2 * x == 2 * (x % WORD32) + WORD32 * (2 * q);
    ModShift(2 * (x % WORD32), 2 * q);
  }

  lemma ShlOnce(x: nat, n: nat)
    ensures 2 * Shl32(x, n) % WORD32 == Shl32(x, n + 1)
  {
    ModTwice(x * Pow2(n));
    assert 2 * (x * Pow2(n)) == x * Pow2(n + 1);
  }

  lemma ShlZero(x: nat)
    requires x < WORD32
    ensures Shl32(x, 0) == x
  {
  }

  /** The shift loop: `dex; bne` after at least one turn. */
  method ShiftLoop(b0: Byte, b1: Byte, b2: Byte, b3: Byte, x: Byte) returns (r0: Byte, r1: Byte, r2: Byte, r3: Byte)
    requires x > 0
    ensures Word(r0, r1, r2, r3) == Shl32(Word(b0, b1, b2, b3), x)
  {
    var n: int := x;
    r0, r1, r2, r3 := b0, b1, b2, b3;
    ShlZero(Word(b0, b1, b2, b3));
    while true
      invariant 0 < n <= x
      invariant Word(r0, r1, r2, r3) == Shl32(Word(b0, b1, b2, b3), x - n)
      decreases n
    {
      ShiftWord(r0, r1, r2, r3);
      ShlOnce(Word(b0, b1, b2, b3), x - n);
      var s := Asl(r0);
      r0 := s.value;
      s := Rol(r1, s.carry);
      r1 := s.value;
      s := Rol(r2, s.carry);
      r2 := s.value;
      s := Rol(r3, s.carry);
      r3 := s.value;
      n := n - 1;
      if n == 0 {
        break;
      }
    }
  }

  // --- sd_cluster_to_block ------------------------------------------------------------------

  /** The bytes of the sd_info fields that the routine reads. */
  datatype Volume = Volume(count0: Byte, count1: Byte, count2: Byte, count3: Byte, shift: Byte,
                           offset0: Byte, offset1: Byte, offset2: Byte, offset3: Byte)
  {
    function Count(): nat { Word(count0, count1, count2, count3) }
    function Offset(): nat { Word(offset0, offset1, offset2, offset3) }
  }

  /** Subtracting 2 byte by byte: the final carry is clear exactly on a borrow. */
  lemma SubtractTwo(a: Byte, x: Byte, rc2: Byte, rc3: Byte)
    ensures var d0 := Sbc(a, 2, 1);
            var d1 := Sbc(x, 0, d0.carry);
            var d2 := Sbc(rc2, 0, d1.carry);
            var d3 := Sbc(rc3, 0, d2.carry);
            && (d3.carry == 0 <==> Word(a, x, rc2, rc3) < 2)
            && (d3.carry == 1 ==> Word(d0.value, d1.value, d2.value, d3.value) == Word(a, x, rc2, rc3) - 2)
  {
    var d0 := Sbc(a, 2, 1);
    var d1 := Sbc(x, 0, d0.carry);
    var d2 := Sbc(rc2, 0, d1.carry);
    SbcExact(a, 2, 1);
    SbcExact(x, 0, d0.carry);
    SbcExact(rc2, 0, d1.carry);
    SbcExact(rc3, 0, d2.carry);
    hide Sbc;
  }

  lemma SbcExact(a: Byte, m: Byte, c: Bit)
    ensures var s := Sbc(a, m, c); s.value + 256 * (s.carry - 1) == a - m - (1 - c)
  {
  }

  lemma AddWords(a0: Byte, a1: Byte, a2: Byte, a3: Byte, b0: Byte, b1: Byte, b2: Byte, b3: Byte)
    ensures var s0 := Adc(a0, b0, 0);
            var s1 := Adc(a1, b1, s0.carry);
            var s2 := Adc(a2, b2, s1.carry);
            var s3 := Adc(a3, b3, s2.carry);
            Word(s0.value, s1.value, s2.value, s3.value) == (Word(a0, a1, a2, a3) + Word(b0, b1, b2, b3)) % WORD32
  {
    var s0 := Adc(a0, b0, 0);
    var s1 := Adc(a1, b1, s0.carry);
    var s2 := Adc(a2, b2, s1.carry);
    var s3 := Adc(a3, b3, s2.carry);
    AdcExact(a0, b0, 0);
    AdcExact(a1, b1, s0.carry);
    AdcExact(a2, b2, s1.carry);
    AdcExact(a3, b3, s2.carry);
    hide Adc;
    Reduced(Word(s0.value, s1.value, s2.value, s3.value), s3.carry, Word(a0, a1, a2, a3) + Word(b0, b1, b2, b3));
  }

  lemma AdcExact(a: Byte, m: Byte, c: Bit)
    ensures Adc(a, m, c).value + 256 * Adc(a, m, c).carry == a + m + c
  {
  }

  lemma Reduced(low: nat, carry: nat, x: nat)
    requires low < WORD32 && low + WORD32 * carry == x
    ensures low == x % WORD32
  {
  }

  /** The compare chain from the high byte down: out of range exactly when not below the count. */
  method CompareCount(v: Volume, rc4: Byte, rc5: Byte, rc2: Byte, rc3: Byte) returns (ok: bool)
    ensures ok <==> Word(rc4, rc5, rc2, rc3) < v.Count()
  {
    if rc3 < v.count3 { return true; }
    if rc3 != v.count3 { return false; }
    if rc2 < v.count2 { return true; }
    if rc2 != v.count2 { return false; }
    if rc5 < v.count1 { return true; }
    if rc5 != v.count1 { return false; }
    ok := rc4 < v.count0;
  }

  lemma WordRange(b0: Byte, b1: Byte, b2: Byte, b3: Byte)
    ensures 0 <= Word(b0, b1, b2, b3) < WORD32 && Word(0, 0, 0, 0) == 0
  {
  }

  /** Input and output are in A:X:rc2:rc3. */
  method SdClusterToBlock(v: Volume, a: Byte, x: Byte, rc2: Byte, rc3: Byte)
    returns (a': Byte, x': Byte, rc2': Byte, rc3': Byte)
    ensures Word(a', x', rc2', rc3') == ClusterToBlock(Word(a, x, rc2, rc3), v.Count(), v.shift, v.Offset())
  {
    hide Shl32;
    hide Adc;
    hide Sbc;
    hide Word;
    SubtractTwo(a, x, rc2, rc3);
    var s := Sbc(a, 2, 1);
    var rc4 := s.value;
    s := Sbc(x, 0, s.carry);
    var rc5 := s.value;
    s := Sbc(rc2, 0, s.carry);
    rc2' := s.value;
    s := Sbc(rc3, 0, s.carry);
    rc3' := s.value;
    WordRange(rc4, rc5, rc2', rc3');
    var ok := false;
    if s.carry == 1 {
      ok := CompareCount(v, rc4, rc5, rc2', rc3');
    }
    if !ok {
      return 0, 0, 0, 0;
    }
    ghost var cluster := Word(rc4, rc5, rc2', rc3');
    ShlZero(cluster);
    if v.shift != 0 {
      rc4, rc5, rc2', rc3' := ShiftLoop(rc4, rc5, rc2', rc3', v.shift);
    }
    AddWords(rc4, rc5, rc2', rc3', v.offset0, v.offset1, v.offset2, v.offset3);
    s := Adc(rc4, v.offset0, 0);
    rc4 := s.value;
    s := Adc(rc5, v.offset1, s.carry);
    x' := s.value;
    s := Adc(rc2', v.offset2, s.carry);
    rc2' := s.value;
    s := Adc(rc3', v.offset3, s.carry);
    rc3' := s.value;
    a' := rc4;
  }

  // --- sd_get_size ------------------------------------------------------------------------------

  lemma RolExact(v: Byte, c: Bit)
    ensures Rol(v, c).value + 256 * Rol(v, c).carry == 2 * v + c
  {
  }

  /** The top two bits of a byte, as the carries of two shifts. */
  lemma TopBits(v: Byte)
    ensures 2 * Asl(v).carry + Asl(Asl(v).value).carry == v / 64
  {
  }

  /** Two shifts of bytes 8, 7 and 6 bring C_SIZE to a byte boundary. */
  lemma CSizeBytes(b6: Byte, b7: Byte, b8: Byte)
    ensures var r8 := Asl(b8);
            var r7 := Rol(b7, r8.carry);
            var r6 := Rol(b6, r7.carry);
            var q8 := Asl(r8.value);
            var q7 := Rol(r7.value, q8.carry);
            var q6 := Rol(r6.value, q7.carry);
            var i6: int, i7: int, i8: int := b6, b7, b8;
            q7.value + 256 * (q6.value % 16) == i6 % 4 * 1024 + i7 * 4 + i8 / 64
  {
    var r8 := Asl(b8);
    var r7 := Rol(b7, r8.carry);
    var r6 := Rol(b6, r7.carry);
    var q8 := Asl(r8.value);
    var q7 := Rol(r7.value, q8.carry);
    var q6 := Rol(r6.value, q7.carry);
    TopBits(b8);
    RolExact(b7, r8.carry);
    RolExact(b6, r7.carry);
    RolExact(r7.value, q8.carry);
    RolExact(r6.value, q7.carry);
    hide Rol;
    var i6: int, i7: int, i8: int := b6, b7, b8;
    assert q7.value + 256 * q6.value + 0x1_0000 * (q6.carry + 2 * r6.carry) == 1024 * i6 + 4 * i7 + i8 / 64;
    LowBits(q7.value, q6.value, q6.carry + 2 * r6.carry, i6, 4 * i7 + i8 / 64);
  }

  /** Keeping four bits of the high byte is keeping two bits of byte 6. */
  lemma LowBits(lo: int, hi: int, k: int, b6: int, rest: int)
    requires 0 <= lo < 256 && 0 <= hi < 256 && 0 <= b6 < 256 && 0 <= rest < 1024 && k >= 0
    requires lo + 256 * hi + 0x1_0000 * k == 1024 * b6 + rest
    ensures lo + 256 * (hi % 16) == b6 % 4 * 1024 + rest
  {
    var h, hr, m, br := hi / 16, hi % 16, b6 / 4, b6 % 4;
    Below4096(lo + 256 * hr, 1024 * br + rest, m - h - 16 * k);
  }

  lemma Below4096(x: int, y: int, k: int)
    requires 0 <= x < 4096 && 0 <= y < 4096 && x - y == 4096 * k
    ensures x == y
  {
  }

  lemma MultBits(b9: Byte, b10: Byte)
    ensures var i9: int, i10: int := b9, b10;
            Rol(b9, Asl(b10).carry).value % 8 == i9 % 4 * 2 + i10 / 128
  {
  }

  lemma {:induction false} ShlBig(x: nat, n: nat)
    requires n >= 32
    ensures Shl32(x, n) == 0
  {
    if n == 32 {
      assert Pow2(32) == WORD32 by { PowersOfTwo(); }
      assert x * WORD32 % WORD32 == 0;
    } else {
      ShlBig(x, n - 1);
      ShlOnce(x, n - 1);
    }
  }

  lemma PowersOfTwo()
    ensures Pow2(8) == 256 && Pow2(16) == 0x1_0000 && Pow2(32) == WORD32
  {
    assert Pow2(4) == 16;
    assert Pow2(8) == 256;
    assert Pow2(12) == 0x1000;
    assert Pow2(16) == 0x1_0000;
    assert Pow2(20) == 0x10_0000;
    assert Pow2(24) == 0x100_0000;
    assert Pow2(28) == 0x1000_0000;
  }

  /** The version 2 part: (C_SIZE + 1) << 10, with the low byte always zero. */
  method SizeV2(b7: Byte, b8: Byte, b9: Byte) returns (a: Byte, x: Byte, rc2: Byte, rc3: Byte)
    ensures Word(a, x, rc2, rc3) == Shl32((Word(0, b9, b8, b7) + 0x100) % WORD32, 2)
  {
    hide Adc;
    hide Word;
    hide Shl32;
    ghost var v := (Word(0, b9, b8, b7) + 0x100) % WORD32;
    PlusOne(b7, b8, b9);
    ShlZero(v);
    var s := Adc(b9, 1, 0);
    var rc4 := s.value;
    s := Adc(b8, 0, s.carry);
    rc2 := s.value;
    s := Adc(b7, 0, s.carry);
    rc3 := s.value;
    rc4, rc2, rc3 := ShiftTop(rc4, rc2, rc3, v, 0);
    rc4, rc2, rc3 := ShiftTop(rc4, rc2, rc3, v, 1);
    return 0, rc4, rc2, rc3;
  }

  lemma PlusOne(b7: Byte, b8: Byte, b9: Byte)
    ensures 0 <= Word(0, b9, b8, b7)
    ensures var s1 := Adc(b9, 1, 0);
            var s2 := Adc(b8, 0, s1.carry);
            var s3 := Adc(b7, 0, s2.carry);
            Word(0, s1.value, s2.value, s3.value) == (Word(0, b9, b8, b7) + 0x100) % WORD32
  {
    AddWords(0, b9, b8, b7, 0, 1, 0, 0);
    assert Adc(0, 0, 0) == Flagged(0, 0) && Word(0, 1, 0, 0) == 0x100;
  }

  /** asl, rol, rol on the upper three bytes. */
  method ShiftTop(rc4: Byte, rc2: Byte, rc3: Byte, ghost v: nat, ghost n: nat) returns (r4: Byte, r2: Byte, r3: Byte)
    requires v < WORD32 && Word(0, rc4, rc2, rc3) == Shl32(v, n)
    ensures Word(0, r4, r2, r3) == Shl32(v, n + 1)
  {
    hide Shl32;
    ShiftWord(0, rc4, rc2, rc3);
    ShlOnce(v, n);
    assert Asl(0) == Flagged(0, 0);
    var s := Asl(rc4);
    r4 := s.value;
    s := Rol(rc2, s.carry);
    r2 := s.value;
    s := Rol(rc3, s.carry);
    r3 := s.value;
  }

  /** C_SIZE + 1 in rc4:rc5; the register is shifted in place. */
  method CountV1(block: array<Byte>) returns (rc4: Byte, rc5: Byte)
    requires block.Length >= 11
    modifies block
    ensures Word(rc4, rc5, 0, 0) == CSizeV1(old(block[..])) + 1
    ensures forall i :: 0 <= i < block.Length && i != 6 && i != 7 && i != 8 ==> block[i] == old(block[i])
    ensures var r8 := Asl(old(block[8]));
            var r7 := Rol(old(block[7]), r8.carry);
            && block[8] == Asl(r8.value).value && block[7] == r7.value
            && block[6] == Rol(old(block[6]), r7.carry).value
  {
    hide Rol;
    hide Word;
    CSizeBytes(block[6], block[7], block[8]);
    var s := Asl(block[8]);
    block[8] := s.value;
    s := Rol(block[7], s.carry);
    block[7] := s.value;
    s := Rol(block[6], s.carry);
    block[6] := s.value;
    s := Asl(block[8]);
    block[8] := s.value;
    s := Rol(block[7], s.carry);
    rc4 := s.value;
    s := Rol(block[6], s.carry);
    rc5 := s.value % 16;
    hide Asl;
    ghost var low, high := rc4, rc5;
    assert rc4 + 256 * rc5 == CSizeV1(old(block[..]));
    s := Adc(rc4, 1, 0);
    rc4 := s.value;
    s := Adc(rc5, 0, s.carry);
    rc5 := s.value;
    AddOne(low, high);
  }

  lemma AddOne(low: Byte, high: Byte)
    requires high < 16
    ensures var s := Adc(low, 1, 0);
            Word(s.value, Adc(high, 0, s.carry).value, 0, 0) == low + 256 * high + 1
  {
    AdcExact(low, 1, 0);
    AdcExact(high, 0, Adc(low, 1, 0).carry);
    hide Adc;
  }

  /** The version 1 part: C_SIZE + 1, then the shift; the CSD bytes are destroyed. */
  method SizeV1(block: array<Byte>) returns (a: Byte, x: Byte, rc2: Byte, rc3: Byte)
    requires block.Length >= 11
    modifies block
    ensures var csd := old(block[..]);
            Word(a, x, rc2, rc3) == if ShiftV1(csd) < 0 then 0 else Shl32(CSizeV1(csd) + 1, ShiftV1(csd))
    ensures old(block[0]) / 64 == 0 ==> block[..] == CsdLeft(old(block[..]))
  {
    hide Rol;
    hide Asl;
    hide Shl32;
    hide Pow2;
    hide Word;
    hide CSizeV1;
    ghost var csd := block[..];
    rc2, rc3 := 0, 0;
    var rc4, rc5 := CountV1(block);
    assert csd[0] / 64 == 0 ==> block[..][10 := Asl(csd[10]).value] == CsdLeft(csd);
    hide CsdLeft;
    var shift := ShiftCount(block, csd);
    CSizeRange(csd);
    ShlZero(CSizeV1(csd) + 1);
    ShiftRange(csd);
    hide ShiftV1;
    if shift != 0 {
      if shift >= 32 { ShlBig(CSizeV1(csd) + 1, shift); }
      rc4, rc5, rc2, rc3 := ShiftLoop(rc4, rc5, rc2, rc3, shift);
    }
    return rc4, rc5, rc2, rc3;
  }

  lemma CSizeRange(csd: seq<Byte>)
    requires |csd| >= 11
    ensures 0 <= CSizeV1(csd) < 4096
  {
  }

  lemma ShiftRange(csd: seq<Byte>)
    requires |csd| >= 11
    ensures -7 <= ShiftV1(csd) <= 15
  {
  }

  /** The shift count in A: C_SIZE_MULT + READ_BL_LEN - 7 as a byte, so a negative one wraps. */
  method ShiftCount(block: array<Byte>, ghost csd: seq<Byte>) returns (a: Byte)
    requires block.Length == |csd| >= 11
    requires block[5] == csd[5] && block[9] == csd[9] && block[10] == csd[10]
    modifies block
    ensures a == if ShiftV1(csd) < 0 then ShiftV1(csd) + 256 else ShiftV1(csd)
    ensures block[..] == old(block[..])[10 := Asl(csd[10]).value]
  {
    hide Rol;
    hide Asl;
    MultBits(block[9], block[10]);
    a := block[9];
    var s := Asl(block[10]);
    block[10] := s.value;
    s := Rol(a, s.carry);
    var rc6: Byte := s.value % 8;
    a := block[5] % 16;
    MinusSeven(a, rc6);
    s := Adc(a, rc6, 0);
    a := s.value;
    s := Sbc(a, 7, 1);
    a := s.value;
    hide Adc;
    hide Sbc;
  }

  /** A sum of two small bytes less 7, as a byte. */
  lemma MinusSeven(a: Byte, b: Byte)
    requires a < 16 && b < 8
    ensures Sbc(Adc(a, b, 0).value, 7, 1).value == if a + b < 7 then a + b - 7 + 256 else a + b - 7
  {
  }

  /** sd_get_size: the card's size in blocks from its CSD register, as the C form has it. */
  method SdGetSize(block: array<Byte>) returns (a: Byte, x: Byte, rc2: Byte, rc3: Byte)
    requires block.Length >= 11
    modifies block
    ensures Word(a, x, rc2, rc3) == CardSize(old(block[..]))
    ensures block[..] == CsdLeft(old(block[..]))
  {
    hide Shl32;
    hide CSizeV1;
    hide ShiftV1;
    hide Word;
    WordRange(0, 0, 0, 0);
    var version := block[0] / 64;
    if version == 0 {
      a, x, rc2, rc3 := SizeV1(block);
    } else if version == 1 {
      a, x, rc2, rc3 := SizeV2(block[7], block[8], block[9]);
    } else {
      a, x, rc2, rc3 := 0, 0, 0, 0;
    }
  }
}
