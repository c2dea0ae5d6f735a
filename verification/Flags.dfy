/** The flag words of declarations, bit by bit. */
module Flags {
  import opened Bytes
  import DataTypeParser
  import Symbols

  /** Binary digit `i` of a number, digit 0 being the last. */
  predicate Bit(n: nat, i: nat) {
    if i == 0 then n % 2 == 1 else Bit(n / 2, i - 1)
  }

  function Pow2(i: nat): (p: nat)
    ensures p > 0
  {
    if i == 0 then 1 else 2 * Pow2(i - 1)
  }

  lemma HalfStep(n: nat, m: nat)
    requires m > 0
    ensures n / (2 * m) == n / 2 / m
  {
    var q, r := n / 2 / m, n / 2 % m;
    assert n / 2 == q * m + r;
    assert n == q * (2 * m) + (2 * r + n % 2);
    DivisionIs(n, q, 2 * r + n % 2, 2 * m);
  }

  lemma {:induction false} HasIsBit(flags: uint32, i: nat, flag: uint32)
    requires flag == Pow2(i)
    ensures DataTypeParser.Has(flags, flag) <==> Bit(flags, i)
  {
    if i > 0 {
      HalfStep(flags, Pow2(i - 1));
      HasIsBit(flags / 2, i - 1, Pow2(i - 1));
    }
  }

  lemma PowersOfTwo()
    ensures Pow2(3) == 0x8 && Pow2(7) == 0x80 && Pow2(9) == 0x200 && Pow2(11) == 0x800 && Pow2(12) == 0x1000
    ensures Pow2(13) == 0x2000 && Pow2(28) == 0x1000_0000 && Pow2(29) == 0x2000_0000 && Pow2(31) == 0x8000_0000
  {
    assert Pow2(5) == 0x20;
    assert Pow2(15) == 0x8000;
    assert Pow2(17) == 0x2_0000;
    assert Pow2(19) == 0x8_0000;
    assert Pow2(21) == 0x20_0000;
    assert Pow2(23) == 0x80_0000;
    assert Pow2(25) == 0x200_0000;
    assert Pow2(27) == 0x800_0000;
  }

  /** Each section of a data type declaration is announced by one bit, whatever the
      other bits are. */
  lemma AnnouncedByBits(flags: uint32)
    ensures var has := DataTypeParser.AnnouncedBy(flags);
      && (has.guid <==> Bit(flags, 7))
      && (has.copyMask <==> Bit(flags, 9))
      && (has.methods <==> Bit(flags, 11))
      && (has.attributes <==> Bit(flags, 12))
      && (has.enums <==> Bit(flags, 13))
      && (has.deRefs <==> Bit(flags, 28))
      && (has.enumExtras <==> Bit(flags, 29))
      && (has.extendedFlags <==> Bit(flags, 31))
  {
    PowersOfTwo();
    HasIsBit(flags, 7, 0x80);
    HasIsBit(flags, 9, 0x200);
    HasIsBit(flags, 11, 0x800);
    HasIsBit(flags, 12, 0x1000);
    HasIsBit(flags, 13, 0x2000);
    HasIsBit(flags, 28, 0x1000_0000);
    HasIsBit(flags, 29, 0x2000_0000);
    HasIsBit(flags, 31, 0x8000_0000);
  }

  /** A symbol has its GUID under bit 3, its attributes under bit 12, and the number of
      its dimensions in the upper 16 bits. */
  lemma SymbolBits(flags: uint32)
    ensures Symbols.Has(flags, Symbols.FLAG_TYPE_GUID) <==> Bit(flags, 3)
    ensures Symbols.Has(flags, Symbols.FLAG_ATTRIBUTES) <==> Bit(flags, 12)
    ensures 0 <= flags - 0x1_0000 * Symbols.ArrayDimension(flags) < 0x1_0000
  {
    PowersOfTwo();
    HasIsBit(flags, 3, 0x8);
    HasIsBit(flags, 12, 0x1000);
  }
}
