/**
 What the mode and flag tests of FsSpec mean for the single bits and octal digits of a mode
 (os/inode.c, os/util.c, include/bits/stat.h, include/bits/fcntl.h).
 */
module FsModes {
  import opened Bits
  import opened Errno
  import opened FsSpec

  // --- Arithmetic -----------------------------------------------------------------------

  lemma DigitBits(n: nat)
    ensures n % 8 % 2 == n % 2 && n % 8 / 2 % 2 == n / 2 % 2 && n % 8 / 4 == n / 4 % 2
  {
    var q, r := n / 8, n % 8;
    assert n == r + 2 * (4 * q);
    HalfSum(r, 4 * q);
    HalfSum(r / 2, 2 * q);
    Quarter(n);
    Quarter(r);
    HalfSum(r / 4, q);
  }

  lemma Quotient(m: nat, q: nat, r: nat)
    requires m == 0x40 * q + r && r < 0x40
    ensures m / 0x40 == q
  {
  }

  lemma Remainder(q: nat, u: nat)
    requires u < 8
    ensures (8 * q + u) % 8 == u
  {
  }

  lemma NoHighBit(n: nat, k: nat)
    requires n < 8 && k >= 3
    ensures !Bit(n, k)
  {
    hide Bit;
    var j: nat := k - 3;
    ByThree(n, j);
    NoBits(j);
  }

  // --- Permissions ---------------------------------------------------------------------

  /** The owner's octal digit is bits 6 to 8 of the mode. */
  lemma OwnerDigit(m: Mode)
    ensures var u := m / 0x40;
            && (Bit(m, 6) <==> u % 2 == 1) && (Bit(m, 7) <==> u / 2 % 2 == 1) && (Bit(m, 8) <==> u / 4 % 2 == 1)
  {
    hide Bit;
    BySix(m, 0);
    BySix(m, 1);
    BySix(m, 2);
    LowBits(m / 0x40);
  }

  lemma AccessAnswers(m: Mode, want: nat)
    ensures Access(m, want) == 0 || Access(m, want) == -EACCES
    ensures want >= 8 ==> Access(m, want) == -EACCES
  {
  }

  /** For a want below 8 the three low bits are compared one by one. */
  lemma AccessDigit(m: Mode, want: nat)
    requires want < 8
    ensures Access(m, want) == 0 <==>
              && (want % 2 == 1 ==> m / 0x40 % 2 == 1)
              && (want / 2 % 2 == 1 ==> m / 0x40 / 2 % 2 == 1)
              && (want / 4 % 2 == 1 ==> m / 0x40 / 4 % 2 == 1)
  {
    DigitBits(m / 0x40);
  }

  /** Access is granted exactly when every wanted bit is one of the low three and is set among
      the owner's bits; otherwise the answer is -EACCES. */
  lemma AccessBits(m: Mode, want: nat)
    ensures Access(m, want) == 0 <==> forall k: nat :: Bit(want, k) ==> k < 3 && Bit(m, 6 + k)
    ensures Access(m, want) == 0 || Access(m, want) == -EACCES
  {
    hide Bit;
    hide Access;
    AccessAnswers(m, want);
    if want >= 8 {
      var k := SomeBit(want / 8);
      ByThree(want, k);
    } else {
      OwnerDigit(m);
      LowBits(want);
      AccessDigit(m, want);
      forall k: nat | k >= 3 ensures !Bit(want, k) { NoHighBit(want, k); }
      assert forall k: nat :: Bit(want, k) ==> k == 0 || k == 1 || k == 2;
    }
  }

  /** The same by octal digits: searching wants the owner's lowest bit, writing the middle one,
      and reading, since R_OK is 3, both. */
  lemma AccessDigits(m: Mode, t: nat, s: nat, u: nat, g: nat, o: nat)
    requires t < 16 && s < 8 && u < 8 && g < 8 && o < 8 && m == 0x1000 * t + 0x200 * s + 0x40 * u + 8 * g + o
    ensures Access(m, F_OK) == 0
    ensures Access(m, X_OK) == if u in {1, 3, 5, 7} then 0 else -EACCES
    ensures Access(m, W_OK) == if u in {2, 3, 6, 7} then 0 else -EACCES
    ensures Access(m, R_OK) == if u in {3, 7} then 0 else -EACCES
  {
    Quotient(m, 0x40 * t + 8 * s + u, 8 * g + o);
    Remainder(8 * t + s, u);
    assert m / 0x40 % 8 == u;
  }

  /** Bit 6 is the right to search, bit 7 the right to write. */
  lemma SearchAndWrite(m: Mode)
    ensures Access(m, X_OK) == if Bit(m, 6) then 0 else -EACCES
    ensures Access(m, W_OK) == if Bit(m, 7) then 0 else -EACCES
  {
    hide Bit;
    hide Access;
    OwnerDigit(m);
    AccessDigit(m, X_OK);
    AccessDigit(m, W_OK);
    AccessAnswers(m, X_OK);
    AccessAnswers(m, W_OK);
  }

  /** The owner's bits that an open flag asks for: the middle one to write, the lowest one to
      execute, and both to read. */
  predicate Permits(m: Mode, oflag: nat)
  {
    && (oflag % 4 != 1 ==> Bit(m, 6))
    && (oflag % 4 != 3 ==> Bit(m, 7))
  }

  lemma AccessModeBits(m: Mode, oflag: nat)
    ensures Access(m, AccessMode(oflag)) == if Permits(m, oflag) then 0 else -EACCES
  {
    hide Bit;
    hide Access;
    OwnerDigit(m);
    AccessDigit(m, AccessMode(oflag));
    AccessAnswers(m, AccessMode(oflag));
  }

  // --- Types and flags -------------------------------------------------------------------

  lemma Types(m: Mode, t: nat, s: nat, low: nat)
    requires t < 16 && s < 8 && low < 0x200 && m == 0x1000 * t + 0x200 * s + low
    ensures FileType(m) == t && (IsDir(m) <==> t == 4) && (IsLnk(m) <==> t == 10)
    ensures IsDevice(m) <==> t == 2 || t == 6
    ensures Mounted(m) <==> s in {1, 3, 5, 7}
  {
  }

  lemma Fold128(n: nat)
    ensures n / 0x40 / 2 == n / 0x80
  {
  }

  /** O_CREAT is bit 6 and O_EXCL bit 7. */
  lemma Flags(oflag: nat)
    ensures Creates(oflag) <==> Bit(oflag, 6)
    ensures Exclusive(oflag) <==> Bit(oflag, 7)
  {
    hide Bit;
    BySix(oflag, 0);
    BySix(oflag, 1);
    LowBits(oflag / 0x40);
    Fold128(oflag);
  }

  // --- The umask -----------------------------------------------------------------------------

  /** A bit of the result is set exactly when it is set in the mode and clear in the mask. */
  lemma {:induction false} AndNotBits(m: nat, mask: nat, k: nat)
    ensures Bit(AndNot(m, mask), k) <==> Bit(m, k) && !Bit(mask, k)
    decreases k
  {
    if m == 0 {
      NoBits(k);
    } else if k > 0 {
      AndNotBits(m / 2, mask / 2, k - 1);
      assert AndNot(m, mask) / 2 == AndNot(m / 2, mask / 2);
    }
  }

  // --- Files of the volume ----------------------------------------------------------------

  /** Everyone may read and search; only the owner may write, and only what is not read-only. */
  lemma FatModeDigits(f: FatFile)
    ensures FatMode(f) == 0x1000 * (if f.isDir then 4 else 8) + 0x40 * (if f.readOnly then 5 else 7) + 8 * 5 + 5
    ensures Bit(FatMode(f), 6) && (Bit(FatMode(f), 7) <==> !f.readOnly) && Bit(FatMode(f), 8)
    ensures IsDir(FatMode(f)) <==> f.isDir
    ensures !Mounted(FatMode(f)) && !IsLnk(FatMode(f))
  {
    hide Bit;
    OwnerDigit(FatMode(f));
  }
}
