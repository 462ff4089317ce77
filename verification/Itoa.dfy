/** Number formatting of libc-src/string/itoa.c against positional value. */
module Itoa {
  import opened Common

  const TWO31: nat := 0x8000_0000

  // ---------- Positional notation ----------

  /** The digits of v in a base, most significant first; none for zero. */
  function Digits(v: nat, base: nat): seq<nat>
    requires base >= 2
  {
    if v == 0 then [] else Digits(v / base, base) + [v % base]
  }

  function Value(ds: seq<nat>, base: nat): nat {
    if ds == [] then 0 else Value(ds[..|ds| - 1], base) * base + ds[|ds| - 1]
  }

  lemma ValueAppend(ds: seq<nat>, d: nat, base: nat)
    ensures Value(ds + [d], base) == Value(ds, base) * base + d
  {
  }

  lemma {:induction false} DigitsValue(v: nat, base: nat)
    requires base >= 2
    ensures Value(Digits(v, base), base) == v
    decreases v
  {
    if v == 0 {
    } else {
      Quotient(v, base);
      DigitsValue(v / base, base);
      hide Value;
      ValueAppend(Digits(v / base, base), v % base, base);
    }
  }

  lemma {:induction false} DigitsBounded(v: nat, base: nat)
    requires base >= 2
    ensures forall i :: 0 <= i < |Digits(v, base)| ==> Digits(v, base)[i] < base
    ensures v > 0 ==> |Digits(v, base)| > 0 && Digits(v, base)[0] > 0
    decreases v
  {
    if v == 0 {
    } else {
      Quotient(v, base);
      DigitsBounded(v / base, base);
    }
  }

  /** The digits are digits, evaluate back to the number, and have no leading zero. */
  lemma DigitsEvaluate(v: nat, base: nat)
    requires base >= 2
    ensures Value(Digits(v, base), base) == v
    ensures forall i :: 0 <= i < |Digits(v, base)| ==> Digits(v, base)[i] < base
    ensures v > 0 ==> |Digits(v, base)| > 0 && Digits(v, base)[0] > 0
  {
    DigitsValue(v, base);
    DigitsBounded(v, base);
  }

  /** The character for a digit: 0 to 9, then a to f. */
  function DigitChar(d: nat): char
    requires d < 16
  {
    if d > 9 then (d - 10 + 'a' as int) as char else (d + '0' as int) as char
  }

  lemma DigitChars(d: nat)
    requires d < 16
    ensures DigitChar(d) == "0123456789abcdef"[d]
  {
  }

  function Text(ds: seq<nat>): (s: string)
    requires forall i :: 0 <= i < |ds| ==> ds[i] < 16
    ensures |s| == |ds|
  {
    seq(|ds|, i requires 0 <= i < |ds| => DigitChar(ds[i]))
  }

  lemma TextReads(ds: seq<nat>, k: nat)
    requires (forall i :: 0 <= i < |ds| ==> ds[i] < 16) && k < |ds|
    ensures Text(ds)[k] == "0123456789abcdef"[ds[k]]
  {
    DigitChars(ds[k]);
  }

  // ---------- The two loops ----------

  function ToInt32(x: nat): int {
    if x < TWO31 then x else x - TWO32
  }

  function ToUInt32(x: int): int {
    if x < 0 then x + TWO32 else x
  }

  /**
    The length loop of uitoa.  It runs on an int, but the base is unsigned, so a value with
    the top bit set, negative as an int, is divided as the unsigned number it is.
  */
  method CountDigits(value: nat, base: nat) returns (len: nat)
    requires value < TWO32 && 2 <= base <= 16
    ensures len == |Digits(value, base)|
  {
    var tmp := ToInt32(value);
    len := 0;
    while tmp != 0
      invariant 0 <= ToUInt32(tmp) < TWO32 && (tmp == 0 <==> ToUInt32(tmp) == 0)
      invariant len + |Digits(ToUInt32(tmp), base)| == |Digits(value, base)|
      decreases ToUInt32(tmp)
    {
      len := len + 1;
      Quotient(ToUInt32(tmp), base);
      tmp := ToInt32(ToUInt32(tmp) / base);
    }
  }

  lemma Quotient(v: nat, base: nat)
    requires v > 0 && base >= 2
    ensures 0 <= v / base < v && 2 * (v / base) <= v && v == v / base * base + v % base && 0 <= v % base < base
    ensures v / base == 0 ==> v % base == v
  {
  }

  /** The digit loop: from the last position down, every position once. */
  method WriteDigits(str: array<char>, value: nat, base: nat, at: nat, len: nat)
    requires value < TWO32 && 2 <= base <= 16 && len == |Digits(value, base)| && at + len <= str.Length
    requires forall i :: 0 <= i < len ==> Digits(value, base)[i] < 16
    modifies str
    ensures str[at..at + len] == Text(Digits(value, base))
    ensures forall k :: 0 <= k < str.Length && !(at <= k < at + len) ==> str[k] == old(str[k])
  {
    var v: nat := value;
    ghost var ds := Digits(value, base);
    ghost var n := len;
    var index := at + len - 1;
    while v != 0
      invariant 0 <= n <= len && index == at + n - 1 && Digits(v, base) == ds[..n]
      invariant forall k :: n <= k < len ==> str[at + k] == DigitChar(ds[k])
      invariant forall k :: 0 <= k < str.Length && !(at <= k < at + len) ==> str[k] == old(str[k])
      decreases v
    {
      LastDigit(v, base, ds[..n]);
      var digit := v % base;
      if digit > 9 {
        str[index] := (digit - 10 + 'a' as int) as char;
      } else {
        str[index] := (digit + '0' as int) as char;
      }
      index := index - 1;
      n := n - 1;
      v := v / base;
    }
    assert n == 0;
  }

  lemma LastDigit(v: nat, base: nat, ds: seq<nat>)
    requires v > 0 && base >= 2 && ds == Digits(v, base)
    ensures 0 <= v / base < v && 0 <= v % base < base
    ensures |ds| > 0 && ds[|ds| - 1] == v % base && Digits(v / base, base) == ds[..|ds| - 1]
  {
    Quotient(v, base);
  }

  /** uitoa: "0" for zero, otherwise exactly the digits; terminated, and the length returned. */
  method Uitoa(value: nat, str: array<char>, base: nat) returns (len: nat)
    requires value < TWO32 && 2 <= base <= 16 && str.Length > |Digits(value, base)| && str.Length >= 2
    modifies str
    ensures len < str.Length && str[len] == '\0'
    ensures value == 0 ==> str[..len] == "0"
    ensures value > 0 ==> len == |Digits(value, base)| && str[..len] == Text(SmallDigits(value, base))
    ensures forall k :: len < k < str.Length ==> str[k] == old(str[k])
  {
    if value == 0 {
      str[0], str[1] := '0', '\0';
      return 1;
    }
    DigitsEvaluate(value, base);
    len := CountDigits(value, base);
    WriteDigits(str, value, base, 0, len);
    str[len] := '\0';
  }

  /** The digits, known to have characters. */
  function SmallDigits(value: nat, base: nat): (ds: seq<nat>)
    requires 2 <= base <= 16
    ensures ds == Digits(value, base) && forall i :: 0 <= i < |ds| ==> ds[i] < 16
  {
    DigitsEvaluate(value, base);
    Digits(value, base)
  }

  /** What itoa puts in front of the digits: the sign, and 0x in base 16. */
  function Prefix(value: int, base: nat): string {
    (if value < 0 then "-" else "") + (if base == 16 then "0x" else "")
  }

  lemma Prefixes(value: int, base: nat)
    ensures value < 0 && base == 16 ==> Prefix(value, base) == "-0x"
    ensures value < 0 && base != 16 ==> Prefix(value, base) == "-"
    ensures value >= 0 ==> Prefix(value, base) == if base == 16 then "0x" else ""
  {
  }

  /** An int as 32-bit wraparound leaves it. */
  function Wrapped(x: int): int {
    (x + TWO31) % TWO32 - TWO31
  }

  /** value - (value * 2), where the product overflows below -2^30; wraparound is assumed. */
  function Negated(value: int): int {
    Wrapped(value - Wrapped(value * 2))
  }

  /** It is the negation if and only if the value is not the smallest int, which it leaves as it is. */
  lemma NegatedIff(value: int)
    requires -0x8000_0000 <= value < 0x8000_0000
    ensures Negated(value) == -value <==> value != -0x8000_0000
    ensures Negated(-0x8000_0000) == -0x8000_0000
  {
  }

  /** itoa for every int but the smallest, whose negation does not fit an int. */
  method SignedItoa(value: int, str: array<char>, base: nat) returns (len: nat)
    requires -0x8000_0000 < value < 0x8000_0000 && 2 <= base <= 16
    requires str.Length >= 2 && str.Length > |Prefix(value, base)| + |Digits(if value < 0 then -value else value, base)|
    modifies str
    ensures len < str.Length && str[len] == '\0'
    ensures value == 0 ==> str[..len] == "0"
    ensures value != 0 ==>
              str[..len] == Prefix(value, base) + Text(SmallDigits(if value < 0 then -value else value, base))
  {
    hide Digits, Value;
    if value == 0 {
      str[0], str[1] := '0', '\0';
      return 1;
    }
    var v := value;
    var at := 0;
    if v < 0 {
      str[at] := '-';
      at := at + 1;
      NegatedIff(v);
      v := Negated(v);
    }
    if base == 16 {
      str[at], str[at + 1] := '0', 'x';
      at := at + 2;
    }
    assert str[..at] == Prefix(value, base);
    DigitsEvaluate(v, base);
    var n := CountDigits(v, base);
    ghost var prefix := str[..at];
    WriteDigits(str, v, base, at, n);
    len := at + n;
    str[len] := '\0';
    assert str[..at] == prefix;
    assert str[..len] == str[..at] + str[at..len];
  }
}
