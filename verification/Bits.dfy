/** Bits of a byte, as the bitmaps of pmm.c and filesystem.c use them. */
module Bits {
  import opened Common

  /** 1 << k. */
  function Mask(k: nat): nat
    requires k < 8
  {
    match k
    case 0 => 1
    case 1 => 2
    case 2 => 4
    case 3 => 8
    case 4 => 16
    case 5 => 32
    case 6 => 64
    case _ => 128
  }

  /** (x >> k) & 1. */
  predicate BitOf(x: Byte, k: nat)
    requires k < 8
  {
    x / Mask(k) % 2 == 1
  }

  /** x | 1 << k. */
  function WithBit(x: Byte, k: nat): Byte
    requires k < 8
  {
    ByteRange(x, k);
    if BitOf(x, k) then x else x + Mask(k)
  }

  /** x & ~(1 << k). */
  function WithoutBit(x: Byte, k: nat): Byte
    requires k < 8
  {
    ByteRange(x, k);
    if BitOf(x, k) then x - Mask(k) else x
  }

  lemma ByteRange(x: Byte, k: nat)
    requires k < 8
    ensures if BitOf(x, k) then x >= Mask(k) else x + Mask(k) < 256
  {
  }

  /** The value of eight binary digits, least significant first. */
  function Value(c: seq<nat>): nat
    requires |c| == 8
  {
    c[0] + 2 * c[1] + 4 * c[2] + 8 * c[3] + 16 * c[4] + 32 * c[5] + 64 * c[6] + 128 * c[7]
  }

  function Half(x: nat, k: nat): nat {
    if k == 0 then x else Half(x, k - 1) / 2
  }

  function Digits(x: Byte): (c: seq<nat>)
    ensures |c| == 8 && forall k :: 0 <= k < 8 ==> c[k] == Half(x, k) % 2
  {
    seq(8, k requires 0 <= k < 8 => Half(x, k) % 2)
  }

  lemma HalfIsShift(x: Byte, k: nat)
    requires k < 8
    ensures Half(x, k) == x / Mask(k) && Half(x, 8) == 0
  {
    assert Half(x, 1) == x / 2 && Half(x, 2) == x / 4 && Half(x, 3) == x / 8;
    assert Half(x, 4) == x / 16 && Half(x, 5) == x / 32 && Half(x, 6) == x / 64 && Half(x, 7) == x / 128 &&
           Half(x, 8) == x / 256;
  }

  lemma DigitsOf(x: Byte, k: nat)
    requires k < 8
    ensures Digits(x)[k] == x / Mask(k) % 2
  {
    HalfIsShift(x, k);
  }

  lemma ValueOfDigits(x: Byte)
    ensures Value(Digits(x)) == x
  {
  }

  /** Binary digits determine the bits. */
  lemma DigitsOfValue(c: seq<nat>, x: Byte)
    requires |c| == 8 && (forall k :: 0 <= k < 8 ==> c[k] < 2) && x == Value(c)
    ensures Digits(x) == c
  {
    forall k | 0 <= k < 8
      ensures Digits(x)[k] == c[k]
    {
      HalfOfValue(c, x, k);
    }
  }

  /** The value of the digits from position k on. */
  function Tail(c: seq<nat>, k: nat): nat
    requires k <= |c|
    decreases |c| - k
  {
    if k == |c| then 0 else c[k] + 2 * Tail(c, k + 1)
  }

  lemma ValueIsTail(c: seq<nat>)
    requires |c| == 8
    ensures Value(c) == Tail(c, 0)
  {
    assert Tail(c, 8) == 0;
    assert Tail(c, 6) == c[6] + 2 * c[7];
    assert Tail(c, 4) == c[4] + 2 * c[5] + 4 * Tail(c, 6);
    assert Tail(c, 2) == c[2] + 2 * c[3] + 4 * Tail(c, 4);
  }

  lemma {:induction false} HalfOfValue(c: seq<nat>, x: Byte, k: nat)
    requires |c| == 8 && (forall i :: 0 <= i < 8 ==> c[i] < 2) && x == Value(c) && k < 8
    ensures Half(x, k) == Tail(c, k) && Half(x, k) % 2 == c[k]
  {
    if k == 0 {
      ValueIsTail(c);
    } else {
      HalfOfValue(c, x, k - 1);
    }
  }

  lemma ReplaceDigit(c: seq<nat>, k: nat, d: nat)
    requires |c| == 8 && k < 8
    ensures Value(c[k := d]) == Value(c) + Mask(k) * d - Mask(k) * c[k]
  {
  }

  lemma BitIsDigit(x: Byte, k: nat)
    requires k < 8
    ensures BitOf(x, k) <==> Digits(x)[k] == 1
  {
    DigitsOf(x, k);
  }

  lemma DigitsWithBit(x: Byte, k: nat)
    requires k < 8
    ensures Digits(WithBit(x, k)) == Digits(x)[k := 1]
  {
    ValueOfDigits(x);
    BitIsDigit(x, k);
    ReplaceDigit(Digits(x), k, 1);
    hide BitOf, Digits, Value;
    DigitsOfValue(Digits(x)[k := 1], WithBit(x, k));
  }

  lemma DigitsWithoutBit(x: Byte, k: nat)
    requires k < 8
    ensures Digits(WithoutBit(x, k)) == Digits(x)[k := 0]
  {
    ValueOfDigits(x);
    BitIsDigit(x, k);
    ReplaceDigit(Digits(x), k, 0);
    hide BitOf, Digits, Value;
    DigitsOfValue(Digits(x)[k := 0], WithoutBit(x, k));
  }

  lemma SetOneBit(x: Byte, k: nat, j: nat)
    requires k < 8 && j < 8
    ensures BitOf(WithBit(x, k), j) <==> j == k || BitOf(x, j)
  {
    hide BitOf, WithBit, Digits;
    DigitsWithBit(x, k);
    BitIsDigit(x, j);
    BitIsDigit(WithBit(x, k), j);
  }

  lemma ClearOneBit(x: Byte, k: nat, j: nat)
    requires k < 8 && j < 8
    ensures BitOf(WithoutBit(x, k), j) <==> j != k && BitOf(x, j)
  {
    hide BitOf, WithoutBit, Digits;
    DigitsWithoutBit(x, k);
    BitIsDigit(x, j);
    BitIsDigit(WithoutBit(x, k), j);
  }

  /** A byte is 0xFF exactly when all its bits are set. */
  lemma FullByte(x: Byte)
    ensures x == 255 <==> forall k :: 0 <= k < 8 ==> BitOf(x, k)
  {
    ValueOfDigits(x);
    forall k | 0 <= k < 8
      ensures Digits(x)[k] == 1 <==> BitOf(x, k)
    {
      DigitsOf(x, k);
    }
    if x == 255 {
      assert Digits(x) == [1, 1, 1, 1, 1, 1, 1, 1];
    }
  }

  // ---------- Bitmaps ----------

  /** Bit j of a bitmap: byte j / 8, bit j % 8. */
  predicate Marked(map8: seq<Byte>, j: nat)
    requires j < 8 * |map8|
  {
    BitOf(map8[j / 8], j % 8)
  }

  function Mark(map8: seq<Byte>, j: nat): (r: seq<Byte>)
    requires j < 8 * |map8|
    ensures |r| == |map8|
  {
    map8[j / 8 := WithBit(map8[j / 8], j % 8)]
  }

  function Unmark(map8: seq<Byte>, j: nat): (r: seq<Byte>)
    requires j < 8 * |map8|
    ensures |r| == |map8|
  {
    map8[j / 8 := WithoutBit(map8[j / 8], j % 8)]
  }

  lemma MarkOne(map8: seq<Byte>, j: nat, i: nat)
    requires j < 8 * |map8| && i < 8 * |map8|
    ensures Marked(Mark(map8, j), i) <==> i == j || Marked(map8, i)
  {
    if i / 8 == j / 8 {
      SetOneBit(map8[j / 8], j % 8, i % 8);
    }
  }

  lemma UnmarkOne(map8: seq<Byte>, j: nat, i: nat)
    requires j < 8 * |map8| && i < 8 * |map8|
    ensures Marked(Unmark(map8, j), i) <==> i != j && Marked(map8, i)
  {
    if i / 8 == j / 8 {
      ClearOneBit(map8[j / 8], j % 8, i % 8);
    }
  }
}
