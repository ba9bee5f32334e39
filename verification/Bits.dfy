/** 32-bit words and C's bitwise operators on them, written on natural numbers
    so that address arithmetic and flag bits live in one theory. */
module Bits {
  type uint32 = x: int | 0 <= x < 0x1_0000_0000
  const U32 := 0x1_0000_0000
  type byte = x: int | 0 <= x < 256

  /** Conversion of a mathematical result to a 32-bit unsigned value. */
  function Wrap(x: int): uint32 {
    x % U32
  }

  /** Conversion to a 32-bit two's complement signed value. */
  function Signed(x: int): int {
    var u := x % U32;
    if u < 0x8000_0000 then u else u - U32
  }

  /** C's `/` on signed operands: truncation toward zero. */
  function TruncDiv(a: int, b: int): int
    requires b > 0
  {
    if a >= 0 then a / b else -((-a) / b)
  }

  /** C's `%` on signed operands: the sign follows the dividend. */
  function TruncMod(a: int, b: int): int
    requires b > 0
  {
    a - b * TruncDiv(a, b)
  }

  /** C's `|`. */
  function Or(a: nat, b: nat): nat
    decreases a + b
  {
    if a == 0 && b == 0 then 0
    else 2 * Or(a / 2, b / 2) + (if a % 2 == 1 || b % 2 == 1 then 1 else 0)
  }

  /** C's `&`. */
  function And(a: nat, b: nat): nat
    decreases a + b
  {
    if a == 0 && b == 0 then 0
    else 2 * And(a / 2, b / 2) + (if a % 2 == 1 && b % 2 == 1 then 1 else 0)
  }

  function Pow2(k: nat): (r: nat)
    ensures r >= 1
  {
    if k == 0 then 1 else 2 * Pow2(k - 1)
  }

  /** Left and right shift by k bits. */
  function Shl(a: nat, k: nat): nat {
    if k == 0 then a else 2 * Shl(a, k - 1)
  }

  function Shr(a: nat, k: nat): nat {
    if k == 0 then a else Shr(a / 2, k - 1)
  }

  lemma {:induction false} ShrSplit(a: nat, j: nat, k: nat)
    ensures Shr(a, j + k) == Shr(Shr(a, j), k)
    decreases j
  {
    if j > 0 { ShrSplit(a / 2, j - 1, k); }
  }

  lemma ShrBy3(a: nat)
    ensures Shr(a, 3) == a / 8
  {
    assert Shr(a, 3) == Shr(a / 2, 2) == Shr(a / 2 / 2, 1) == Shr(a / 2 / 2 / 2, 0);
  }

  lemma {:induction false} ShlSplit(a: nat, j: nat, k: nat)
    ensures Shl(a, j + k) == Shl(Shl(a, j), k)
    decreases k
  {
    if k > 0 { ShlSplit(a, j, k - 1); }
  }

  lemma ShlBy3(a: nat)
    ensures Shl(a, 3) == 8 * a
  {
    assert Shl(a, 1) == 2 * a;
    assert Shl(a, 2) == 4 * a;
  }

  lemma ShlBy12(a: nat)
    ensures Shl(a, 12) == 4096 * a
  {
    ShlSplit(a, 3, 9);
    ShlSplit(8 * a, 3, 6);
    ShlSplit(64 * a, 3, 3);
    ShlBy3(a);
    ShlBy3(8 * a);
    ShlBy3(64 * a);
    ShlBy3(512 * a);
  }

  lemma ShrBy12(a: nat)
    ensures Shr(a, 12) == a / 4096
  {
    ShrSplit(a, 3, 9);
    ShrSplit(a / 8, 3, 6);
    ShrSplit(a / 64, 3, 3);
    ShrBy3(a);
    ShrBy3(a / 8);
    ShrBy3(a / 64);
    ShrBy3(a / 512);
  }

  lemma ShiftBy12(a: nat)
    ensures Shl(a, 12) == 4096 * a && Shr(a, 12) == a / 4096
  {
    ShlBy12(a);
    ShrBy12(a);
  }

  /** Flag bits below bit k can simply be added to a value shifted left by k. */
  lemma {:induction false} OrShifted(q: nat, b: nat, k: nat)
    requires b < Pow2(k)
    ensures Or(Shl(q, k), b) == Shl(q, k) + b
    decreases k
  {
    if k == 0 {
      OrZero(q);
    } else if Shl(q, k) != 0 || b != 0 {
      OrShifted(q, b / 2, k - 1);
    }
  }

  lemma {:induction false} OrZero(a: nat)
    ensures Or(a, 0) == a
  {
    if a != 0 { OrZero(a / 2); }
  }

  /** The lowest bit of `|`, and the others. */
  lemma OrStep(a: nat, b: nat)
    ensures Or(a, b) % 2 == (if a % 2 == 1 || b % 2 == 1 then 1 else 0)
    ensures Or(a, b) / 2 == Or(a / 2, b / 2)
  {
  }

  /** The three lowest bits of `|`. */
  lemma OrLowBits(a: nat, b: nat)
    ensures Or(a, b) % 2 == 1 <==> a % 2 == 1 || b % 2 == 1
    ensures Or(a, b) / 2 % 2 == 1 <==> a / 2 % 2 == 1 || b / 2 % 2 == 1
    ensures Or(a, b) / 4 % 2 == 1 <==> a / 4 % 2 == 1 || b / 4 % 2 == 1
  {
    hide Or;
    OrStep(a, b);
    OrStep(a / 2, b / 2);
    OrStep(a / 2 / 2, b / 2 / 2);
    Quarter(a);
    Quarter(b);
    Quarter(Or(a, b));
  }

  lemma Quarter(a: nat)
    ensures a / 4 == a / 2 / 2
  {
  }

  lemma {:induction false} OrCommutes(a: nat, b: nat)
    ensures Or(a, b) == Or(b, a)
    decreases a + b
  {
    if a != 0 || b != 0 { OrCommutes(a / 2, b / 2); }
  }

  lemma {:induction false} OrBound(a: nat, b: nat, k: nat)
    requires a < Pow2(k) && b < Pow2(k)
    ensures Or(a, b) < Pow2(k)
    decreases k
  {
    if k > 0 && (a != 0 || b != 0) { OrBound(a / 2, b / 2, k - 1); }
  }

  lemma {:induction false} AndLowOnes(a: nat, k: nat)
    requires a < Pow2(k)
    ensures And(a, Pow2(k) - 1) == a
    decreases k
  {
    if k > 0 { AndLowOnes(a / 2, k - 1); }
  }

  /** `a & (m << k)` drops the low k bits of a before masking with m. */
  lemma {:induction false} AndShifted(a: nat, m: nat, k: nat)
    ensures And(a, Shl(m, k)) == Shl(And(Shr(a, k), m), k)
    decreases k
  {
    if k > 0 {
      AndShifted(a / 2, m, k - 1);
    }
  }

  /** The page-frame part of a table entry: `entry & 0xFFFFF000`. */
  function Mask(e: uint32): (r: uint32)
    ensures r == e / 4096 * 4096
  {
    MaskIsFrame(e);
    And(e, 0xFFFFF000)
  }

  lemma MaskIsFrame(e: uint32)
    ensures And(e, 0xFFFFF000) == e / 4096 * 4096
  {
    Powers();
    ShiftBy12(e);
    ShiftBy12(0xFFFFF);
    ShiftBy12(e / 4096);
    AndShifted(e, 0xFFFFF, 12);
    AndLowOnes(e / 4096, 20);
  }

  lemma Powers()
    ensures Pow2(12) == 4096 && Pow2(20) == 0x100000 && Pow2(32) == 0x1_0000_0000
  {
    assert Pow2(4) == 16;
    assert Pow2(8) == 256;
    assert Pow2(12) == 4096;
    assert Pow2(16) == 0x10000;
    assert Pow2(20) == 0x100000;
    assert Pow2(24) == 0x1000000;
    assert Pow2(28) == 0x10000000;
  }

  lemma {:induction false} ShrOr(a: nat, b: nat, k: nat)
    ensures Shr(Or(a, b), k) == Or(Shr(a, k), Shr(b, k))
    decreases k
  {
    if k > 0 { ShrOr(a / 2, b / 2, k - 1); }
  }

  /** `address | flags` */
  function WithFlags(address: uint32, flags: uint32): uint32 {
    Powers();
    OrBound(address, flags, 32);
    Or(address, flags)
  }

  /** Flags below bit 12 leave the page frame alone and sit in the low bits of an aligned address. */
  lemma WithFlagsIs(address: uint32, flags: uint32)
    ensures flags < 4096 ==> WithFlags(address, flags) / 4096 == address / 4096
    ensures flags < 4096 && address % 4096 == 0 ==> WithFlags(address, flags) == address + flags
  {
    if flags < 4096 {
      Powers();
      ShiftBy12(address / 4096);
      ShiftBy12(address);
      ShiftBy12(flags);
      ShiftBy12(Or(address, flags));
      ShrOr(address, flags, 12);
      OrZero(address / 4096);
      if address % 4096 == 0 { OrShifted(address / 4096, flags, 12); }
    }
  }

  /** Flags show up in the three lowest bits of an aligned address, and stay there under more flags. */
  lemma FlagBits(address: uint32, flags: uint32)
    ensures WithFlags(address, flags) % 2 == 1 <==> address % 2 == 1 || flags % 2 == 1
    ensures WithFlags(address, flags) / 2 % 2 == 1 <==> address / 2 % 2 == 1 || flags / 2 % 2 == 1
    ensures WithFlags(address, flags) / 4 % 2 == 1 <==> address / 4 % 2 == 1 || flags / 4 % 2 == 1
  {
    OrLowBits(address, flags);
  }
}
