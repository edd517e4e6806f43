/** The bit operations on unsigned numbers, digit by digit, and what they come to in the
    encoder. */
module Bits {
  function Bit(b: bool): nat {
    if b then 1 else 0
  }

  /** a & b */
  function BitAnd(a: nat, b: nat): nat {
    if a == 0 then 0 else 2 * BitAnd(a / 2, b / 2) + Bit(a % 2 == 1 && b % 2 == 1)
  }

  /** a | b */
  function BitOr(a: nat, b: nat): nat
    decreases a + b
  {
    if a + b == 0 then 0 else 2 * BitOr(a / 2, b / 2) + Bit(a % 2 == 1 || b % 2 == 1)
  }

  /** (a | mark) & mask */
  function Marked(a: nat, mark: nat, mask: nat): nat {
    BitAnd(BitOr(a, mark), mask)
  }

  lemma OneAnd(a: nat, b: nat)
    ensures BitAnd(a, b) == 2 * BitAnd(a / 2, b / 2) + Bit(a % 2 == 1 && b % 2 == 1)
  {
  }

  lemma OneOr(a: nat, b: nat)
    ensures BitOr(a, b) == 2 * BitOr(a / 2, b / 2) + Bit(a % 2 == 1 || b % 2 == 1)
    ensures BitOr(a, b) / 2 == BitOr(a / 2, b / 2)
    ensures BitOr(a, b) % 2 == 1 <==> a % 2 == 1 || b % 2 == 1
  {
  }

  lemma OneMarked(a: nat, mark: nat, mask: nat)
    ensures Marked(a, mark, mask)
         == 2 * Marked(a / 2, mark / 2, mask / 2) + Bit((a % 2 == 1 || mark % 2 == 1) && mask % 2 == 1)
  {
    hide BitAnd, BitOr, Bit;
    OneOr(a, mark);
    OneAnd(BitOr(a, mark), mask);
  }

  lemma {:induction false} NoMask(a: nat)
    ensures BitAnd(a, 0) == 0
  {
    if a > 0 {
      NoMask(a / 2);
    }
  }

  /** Three digits that are neither marked nor masked out. */
  lemma ThreeMarked(a: nat, mark: nat, mask: nat)
    requires mask % 8 == 7 && mark % 8 == 0
    ensures Marked(a, mark, mask) == 8 * Marked(a / 8, mark / 8, mask / 8) + a % 8
  {
    hide Marked;
    OneMarked(a, mark, mask);
    OneMarked(a / 2, mark / 2, mask / 2);
    OneMarked(a / 2 / 2, mark / 2 / 2, mask / 2 / 2);
    assert a / 2 / 2 / 2 == a / 8 && mark / 2 / 2 / 2 == mark / 8 && mask / 2 / 2 / 2 == mask / 8;
  }

  lemma ThreeAnd(a: nat, mask: nat)
    requires mask % 8 == 7
    ensures BitAnd(a, mask) == 8 * BitAnd(a / 8, mask / 8) + a % 8
  {
    hide BitAnd;
    OneAnd(a, mask);
    OneAnd(a / 2, mask / 2);
    OneAnd(a / 2 / 2, mask / 2 / 2);
    assert a / 2 / 2 / 2 == a / 8 && mask / 2 / 2 / 2 == mask / 8;
  }

  lemma ThreeOr(a: nat, b: nat)
    ensures BitOr(8 * a, b) == 8 * BitOr(a, b / 8) + b % 8
  {
    hide BitOr;
    OneOr(8 * a, b);
    OneOr(4 * a, b / 2);
    OneOr(2 * a, b / 2 / 2);
    assert 8 * a / 2 == 4 * a && 4 * a / 2 == 2 * a && 2 * a / 2 == a && b / 2 / 2 / 2 == b / 8;
  }

  lemma {:induction false} NothingOr(a: nat)
    ensures BitOr(a, 0) == a
  {
    if a > 0 {
      NothingOr(a / 2);
    }
  }

  lemma {:induction false} Nothing(mark: nat, mask: nat)
    ensures Marked(0, mark, mask) == BitAnd(mark, mask)
  {
    OrNothing(mark);
  }

  lemma {:induction false} OrNothing(b: nat)
    ensures BitOr(0, b) == b
  {
    if b > 0 {
      OrNothing(b / 2);
    }
  }

  // What the encoder does with them.

  /** (c | 0x80) & 0xBF: a continuation byte with the last six digits. */
  lemma ContinuationBits(c: nat)
    ensures BitAnd(BitOr(c, 0x80), 0xBF) == 0x80 + c % 0x40
  {
    hide BitAnd, BitOr;
    ThreeMarked(c, 0x80, 0xBF);
    ThreeMarked(c / 8, 0x10, 0x17);
    OneMarked(c / 8 / 8, 2, 2);
    OneMarked(c / 8 / 8 / 2, 1, 1);
    NoMask(BitOr(c / 8 / 8 / 2 / 2, 0));
  }

  lemma {:induction false} AndSelf(a: nat)
    ensures BitAnd(a, a) == a
  {
    if a > 0 {
      AndSelf(a / 2);
    }
  }

  /** (c | mark) & 0xFF: the first byte of two ... */
  lemma FirstOfTwo(c: nat)
    requires c < 0x20
    ensures BitAnd(BitOr(c, 0xC0), 0xFF) == 0xC0 + c
  {
    hide BitAnd, BitOr;
    ThreeMarked(c, 0xC0, 0xFF);
    ThreeMarked(c / 8, 0x18, 0x1F);
    Nothing(3, 3);
    AndSelf(3);
  }

  /** ... three ... */
  lemma FirstOfThree(c: nat)
    requires c < 0x10
    ensures BitAnd(BitOr(c, 0xE0), 0xFF) == 0xE0 + c
  {
    hide BitAnd, BitOr;
    ThreeMarked(c, 0xE0, 0xFF);
    OneMarked(c / 8, 0x1C, 0x1F);
    Nothing(0x0E, 0x0F);
    OneAnd(0x0E, 0x0F);
    AndSelf(7);
  }

  /** ... and four bytes. */
  lemma FirstOfFour(c: nat)
    requires c < 0x08
    ensures BitAnd(BitOr(c, 0xF0), 0xFF) == 0xF0 + c
  {
    hide BitAnd, BitOr;
    ThreeMarked(c, 0xF0, 0xFF);
    Nothing(0x1E, 0x1F);
    OneAnd(0x1E, 0x1F);
    AndSelf(0x0F);
  }

  /** c & 0x7F: a byte of its own. */
  lemma OnlyByte(c: nat)
    requires c < 0x80
    ensures BitAnd(c, 0x7F) == c
  {
    hide BitAnd;
    ThreeAnd(c, 0x7F);
    ThreeAnd(c / 8, 0x0F);
    OneAnd(c / 8 / 8, 1);
    NoMask(c / 8 / 8 / 2);
  }

  /** a & 0x3FF: the ten digits of half a surrogate pair. */
  lemma TenBits(a: nat)
    ensures BitAnd(a, 0x3FF) == a % 0x400
  {
    hide BitAnd;
    ThreeAnd(a, 0x3FF);
    ThreeAnd(a / 8, 0x7F);
    ThreeAnd(a / 8 / 8, 0x0F);
    OneAnd(a / 8 / 8 / 8, 1);
    NoMask(a / 8 / 8 / 8 / 2);
  }

  /** (h << 10) | l: both halves beside each other. */
  lemma BothHalves(h: nat, l: nat)
    requires l < 0x400
    ensures BitOr(0x400 * h, l) == 0x400 * h + l
  {
    hide BitOr;
    ThreeOr(0x80 * h, l);
    ThreeOr(0x10 * h, l / 8);
    ThreeOr(2 * h, l / 8 / 8);
    OneOr(2 * h, l / 8 / 8 / 8);
    NothingOr(h);
  }
}
