/** Printing and parsing numbers: the conversions of kernel/shell.c and kernel/string.c. */
module Numbers {
  import opened Words
  import opened Names

  type int32 = x: int | -0x8000_0000 <= x < 0x8000_0000

  /** Two's-complement wrap-around of a signed 32-bit result. */
  function Int32Of(x: int): int32 {
    (x + 0x8000_0000) % 0x1_0000_0000 - 0x8000_0000
  }

  /** Unary minus on a signed 32-bit number. */
  function Negated(x: int): int32 { Int32Of(-x) }

  function Over(v: nat, p: nat): (q: int)
    requires p > 0
    ensures q >= 0
  {
    v / p
  }

  function Left(v: nat, p: nat): (r: int)
    requires p > 0
    ensures 0 <= r < p
  {
    v % p
  }

  /** C's division and remainder, which truncate towards zero. */
  function Quot(a: int, b: int): int
    requires b > 0
  {
    if a >= 0 then Over(a, b) else -Over(-a, b)
  }

  function Rem(a: int, b: int): int
    requires b > 0
  {
    if a >= 0 then Left(a, b) else -Left(-a, b)
  }

  lemma QuotRem(a: int, b: int)
    requires b >= 2
    ensures a == Quot(a, b) * b + Rem(a, b)
    ensures a >= 0 ==> 0 <= Quot(a, b) && 0 <= Rem(a, b)
    ensures a > 0 ==> Quot(a, b) < a
    ensures a < 0 ==> a < Quot(a, b) <= 0
    ensures -b < Rem(a, b) < b && (a <= 0 ==> Rem(a, b) <= 0)
  {
    var m := if a >= 0 then a else -a;
    Shrinks(m, b);
    hide Over, Left;
    Negate(Over(m, b), b);
  }

  lemma Negate(q: int, b: int)
    ensures -q * b == -(q * b)
  {
  }

  lemma Shrinks(m: nat, b: nat)
    requires b >= 2
    ensures m == Over(m, b) * b + Left(m, b) && (m > 0 ==> Over(m, b) < m)
  {
    Divided(m, b);
    Twice(Over(m, b), b);
    hide Over, Left;
  }

  lemma Twice(q: nat, b: nat)
    requires b >= 2
    ensures q * b >= 2 * q
  {
    var c := b - 2;
    assert q * b == q * 2 + q * c && q * c >= 0;
  }

  // ----- texts of numbers -----

  /** The character the printers give a remainder. */
  function DigitChar(r: int): byte
    requires -36 < r < 36
  {
    if r > 9 then r - 10 + 0x61 else r + 0x30
  }

  /** Most significant digit first; nothing for zero. */
  function Digits(v: int, b: nat): (s: seq<byte>)
    requires 2 <= b <= 36
    ensures s == [] <==> v == 0
    decreases if v >= 0 then v else -v
  {
    QuotRem(v, b);
    if v == 0 then [] else Digits(Quot(v, b), b) + [DigitChar(Rem(v, b))]
  }

  function Text(v: int, b: nat): (s: seq<byte>)
    requires 2 <= b <= 36
    ensures s != []
  {
    if v == 0 then [0x30] else Digits(v, b)
  }

  /** The value of a digit, if the character is one. */
  function DigitOf(c: byte): (d: Option<nat>)
    ensures d.Some? ==> d.value < 16
  {
    if 0x30 <= c <= 0x39 then Some(c - 0x30)
    else if 0x61 <= c <= 0x66 then Some(c - 0x61 + 10)
    else if 0x41 <= c <= 0x46 then Some(c - 0x41 + 10)
    else None
  }

  /** The digits as the printers write them. */
  lemma DigitTable(r: nat)
    requires r < 36
    ensures DigitChar(r) == "0123456789abcdefghijklmnopqrstuvwxyz"[r] as int
  {
  }

  /** As the hexadecimal printer writes them. */
  lemma HexTables(r: nat)
    requires r < 16
    ensures HexChar(r, false) == "0123456789abcdef"[r] as int && HexChar(r, true) == "0123456789ABCDEF"[r] as int
  {
  }

  /** As the parsers read them. */
  lemma DigitsRead(c: byte, r: nat)
    requires r < 16
    ensures DigitOf(c) == Some(r) <==> c == "0123456789abcdef"[r] as int || c == "0123456789ABCDEF"[r] as int
  {
  }

  predicate IsDigit(c: byte, b: int) { DigitOf(c).Some? && DigitOf(c).value < b }

  /** The number that a run of digits stands for. */
  function Value(s: seq<byte>, b: nat): nat
    requires forall i | 0 <= i < |s| :: DigitOf(s[i]).Some?
  {
    if s == [] then 0 else Value(s[..|s| - 1], b) * b + DigitOf(s[|s| - 1]).value
  }

  /** The length of the run of digits at the front. */
  function RunLength(s: seq<byte>, b: int): (n: nat)
    ensures n <= |s| && (forall i | 0 <= i < n :: IsDigit(s[i], b)) && (n < |s| ==> !IsDigit(s[n], b))
  {
    if s == [] || !IsDigit(s[0], b) then 0 else 1 + RunLength(s[1..], b)
  }

  lemma {:induction false} RunIs(s: seq<byte>, b: int, n: nat)
    requires n <= |s| && (forall i | 0 <= i < n :: IsDigit(s[i], b)) && (n < |s| ==> !IsDigit(s[n], b))
    ensures RunLength(s, b) == n
  {
    if n > 0 {
      RunIs(s[1..], b, n - 1);
    }
  }

  function RunValue(s: seq<byte>, b: nat): nat {
    Value(s[..RunLength(s, b)], b)
  }

  // ----- the digits of a number -----

  function Power(b: nat, k: nat): (p: nat)
    ensures b > 0 ==> p > 0
  {
    if k == 0 then 1 else b * Power(b, k - 1)
  }

  /** Dividing twice is dividing by the product. */
  lemma DivideTwice(v: nat, b: nat, p: nat)
    requires b >= 2 && p > 0
    ensures b * p > 0 && Over(Over(v, b), p) == Over(v, b * p)
  {
    Divided(v, b);
    Divided(Over(v, b), p);
    var low, q, r := Left(v, b), Over(Over(v, b), p), Left(Over(v, b), p);
    hide Over, Left;
    Places(q, r, p, b, low);
    QuotientIs(v, b * p, q, r * b + low);
  }

  lemma Divided(m: nat, b: nat)
    requires b > 0
    ensures m == Over(m, b) * b + Left(m, b)
  {
  }

  lemma QuotientIs(v: nat, m: nat, q: nat, r: nat)
    requires v == q * m + r && r < m
    ensures Over(v, m) == q
  {
    DivModUnique(m, q, r);
  }

  lemma Places(q: nat, r: nat, p: nat, b: nat, low: nat)
    requires r < p && low < b
    ensures (q * p + r) * b + low == q * (b * p) + (r * b + low)
    ensures 0 <= r * b + low < b * p
  {
    assert (q * p + r) * b == q * p * b + r * b;
    Regrouped(q, p, b);
    MultiplesApart(b, r, p);
    assert r * b >= 0;
  }

  lemma Regrouped(q: nat, p: nat, b: nat)
    ensures q * p * b == q * (b * p) && p * b == b * p
  {
  }

  /** The k-th digit from the right, in any base from 2 to 36. */
  lemma {:induction false} DigitsAre(v: nat, b: nat, k: nat)
    requires 2 <= b <= 36 && k < |Digits(v, b)|
    ensures var d := Left(Over(v, Power(b, k)), b);
      d < 36 && Digits(v, b)[|Digits(v, b)| - 1 - k] == DigitChar(d)
    decreases k
  {
    SplitDigits(v, b);
    if k == 0 {
      OverOne(v, b);
      hide Digits, Over, Left, Power, DigitChar;
    } else {
      hide Digits, Over, Left, DigitChar;
      DigitsAre(Over(v, b), b, k - 1);
      DivideTwice(v, b, Power(b, k - 1));
    }
  }

  /** A negative number, as itoa prints it in other bases than 10: as many characters, each as far below
      "0" as the digit is above it. */
  lemma {:induction false} NegativeDigits(v: nat, b: nat, k: nat)
    requires 2 <= b <= 36
    ensures |Digits(-(v as int), b)| == |Digits(v, b)|
    ensures k < |Digits(v, b)| ==>
      Digits(-(v as int), b)[|Digits(v, b)| - 1 - k] == 0x30 - Left(Over(v, Power(b, k)), b)
    decreases v
  {
    if v == 0 {
      NoneNegative(b);
    } else {
      Shrinks(v, b);
      SplitNegative(v, b);
      hide Digits, Over, Left;
      NegativeDigits(Over(v, b), b, if k > 0 then k - 1 else 0);
      if k == 0 {
        OverOne(v, b);
      } else {
        DivideTwice(v, b, Power(b, k - 1));
      }
    }
  }

  lemma NoneNegative(b: nat)
    requires 2 <= b <= 36
    ensures Digits(-0, b) == [] && Digits(0, b) == []
  {
  }

  lemma SplitNegative(v: nat, b: nat)
    requires 2 <= b <= 36 && v > 0
    ensures Left(v, b) < 36 && Over(v, b) < v
    ensures Digits(v, b) == Digits(Over(v, b), b) + [DigitChar(Left(v, b))]
    ensures Digits(-(v as int), b) == Digits(-Over(v, b), b) + [0x30 - Left(v, b)]
  {
    Shrinks(v, b);
    QuotRem(v, b);
    QuotRem(-(v as int), b);
    hide Over, Left;
  }

  lemma OverOne(v: nat, b: nat)
    ensures Power(b, 0) == 1 && Over(v, 1) == v
  {
  }

  lemma SplitDigits(v: nat, b: nat)
    requires 2 <= b <= 36 && Digits(v, b) != []
    ensures v > 0 && Left(v, b) < 36 && Digits(v, b) == Digits(Over(v, b), b) + [DigitChar(Left(v, b))]
  {
    hide Over, Left;
  }

  /** As many digits as the number needs. */
  lemma {:induction false} DigitCount(v: nat, b: nat)
    requires 2 <= b <= 36 && v > 0
    ensures |Digits(v, b)| > 0 && Power(b, |Digits(v, b)| - 1) <= v < Power(b, |Digits(v, b)|)
    decreases v
  {
    var w, n := Over(v, b), |Digits(v, b)|;
    Shrinks(v, b);
    SplitDigits(v, b);
    if w == 0 {
      OneDigit(b);
      hide Digits, Over, Left, Power;
    } else {
      hide Digits, Over, Left;
      DigitCount(w, b);
      Between(v, w, Left(v, b), b, Power(b, n - 2), Power(b, n - 1));
    }
  }

  lemma OneDigit(b: nat)
    requires 2 <= b <= 36
    ensures Digits(0, b) == [] && Power(b, 0) == 1 && Power(b, 1) == b
  {
    assert Power(b, 1) == b * Power(b, 0);
  }

  lemma Between(v: nat, w: nat, r: nat, b: nat, p: nat, q: nat)
    requires v == w * b + r && r < b && p <= w < q
    ensures b * p <= v < b * q
  {
    MultiplesApart(b, w, q);
    if p < w { MultiplesApart(b, p, w); }
    assert b * p == p * b && b * q == q * b;
  }

  // ----- printing -----

  function Reverse(s: seq<byte>): (r: seq<byte>)
    ensures |r| == |s| && forall i | 0 <= i < |s| :: r[i] == s[|s| - 1 - i]
  {
    seq<byte>(|s|, i requires 0 <= i < |s| => s[|s| - 1 - i])
  }

  /** reverse_string; shell_utoa's last loop is the same. */
  method ReverseString(str: array<byte>, length: nat)
    requires length <= str.Length
    modifies str
    ensures str[..length] == Reverse(old(str[..length]))
    ensures forall i | length <= i < str.Length :: str[i] == old(str[i])
  {
    var start, end := 0, length - 1;
    while start < end
      invariant 0 <= start && start + end == length - 1 && end >= start - 1
      invariant forall i | 0 <= i < str.Length && (start <= i <= end || length <= i) :: str[i] == old(str[i])
      invariant forall i | 0 <= i < start :: str[i] == old(str[length - 1 - i])
      invariant forall i | end < i < length :: str[i] == old(str[length - 1 - i])
    {
      str[start], str[end] := str[end], str[start];
      start, end := start + 1, end - 1;
    }
    assert forall i | 0 <= i < length :: str[i] == Reverse(old(str[..length]))[i];
  }

  /** str holds the text and its terminator. */
  predicate HoldsText(str: array<byte>, text: seq<byte>)
    reads str
  {
    |text| < str.Length && str[..|text|] == text && str[|text|] == 0
  }

  /** The bytes from the n-th on are as they were. */
  predicate Untouched(str: array<byte>, n: nat, before: seq<byte>)
    reads str
  {
    |before| == str.Length && forall i | n <= i < str.Length :: str[i] == before[i]
  }

  /** The digit loop of the printers: the digits of value, lowest first. */
  method LowDigits(value: int, str: array<byte>, base: nat) returns (n: nat)
    requires 2 <= base <= 36 && |Digits(value, base)| <= str.Length
    modifies str
    ensures n == |Digits(value, base)| && Reverse(str[..n]) == Digits(value, base)
    ensures forall i | n <= i < str.Length :: str[i] == old(str[i])
  {
    n := 0;
    var v := value;
    while v != 0
      invariant n <= str.Length && Digits(value, base) == Digits(v, base) + Reverse(str[..n])
      invariant forall i | n <= i < str.Length :: str[i] == old(str[i])
      decreases if v >= 0 then v else -v
    {
      QuotRem(v, base);
      ghost var before := str[..n];
      str[n] := DigitChar(Rem(v, base));
      n := n + 1;
      assert str[..n] == before + [DigitChar(Rem(v, base))];
      assert Reverse(str[..n]) == [DigitChar(Rem(v, base))] + Reverse(before);
      v := Quot(v, base);
    }
  }

  /** Terminate the text and turn it round. */
  method Finish(str: array<byte>, n: nat, ghost text: seq<byte>)
    requires n < str.Length && Reverse(str[..n]) == text
    modifies str
    ensures HoldsText(str, text) && Untouched(str, n + 1, old(str[..]))
  {
    ghost var low := str[..n];
    str[n] := 0;
    assert str[..n] == low;
    ReverseString(str, n);
  }

  /** shell_utoa, and utoa of kernel/string.c. */
  method Utoa(value: uint32, str: array<byte>, base: nat)
    requires 2 <= base <= 36 && |Text(value, base)| < str.Length
    modifies str
    ensures HoldsText(str, Text(value, base)) && Untouched(str, |Text(value, base)| + 1, old(str[..]))
  {
    if value == 0 {
      str[0], str[1] := 0x30, 0;
      return;
    }
    var n := LowDigits(value, str, base);
    Finish(str, n, Digits(value, base));
  }

  /** The text itoa prints: the digits of a negative number in base 10 come from its negation, which
      for the least number is that number again. */
  function SignedText(v: int32, b: nat): seq<byte>
    requires 2 <= b <= 36
  {
    if v < 0 && b == 10 then [0x2D] + Digits(Negated(v), 10) else Text(v, b)
  }

  /** itoa. */
  method Itoa(value: int32, str: array<byte>, base: nat)
    requires 2 <= base <= 36 && |SignedText(value, base)| < str.Length
    modifies str
    ensures HoldsText(str, SignedText(value, base)) && Untouched(str, |SignedText(value, base)| + 1, old(str[..]))
  {
    if value == 0 {
      str[0], str[1] := 0x30, 0;
      return;
    }
    hide Digits, Reverse, Negated, HoldsText;
    var negative, v: int := false, value;
    if v < 0 && base == 10 {
      negative := true;
      v := Negated(v);
    }
    var n := LowDigits(v, str, base);
    if negative {
      n := PutMinus(str, n);
    }
    Finish(str, n, SignedText(value, base));
  }

  /** `*ptr++ = '-'`. */
  method PutMinus(str: array<byte>, at: nat) returns (n: nat)
    requires at < str.Length
    modifies str
    ensures n == at + 1 && Reverse(str[..n]) == [0x2D] + Reverse(old(str[..at]))
    ensures forall i | n <= i < str.Length :: str[i] == old(str[i])
  {
    ghost var low := str[..at];
    str[at] := 0x2D;
    n := at + 1;
    assert str[..n] == low + [0x2D];
    AppendReversed(low, 0x2D);
  }

  lemma AppendReversed(low: seq<byte>, c: byte)
    ensures Reverse(low + [c]) == [c] + Reverse(low)
  {
  }

  // ----- hexadecimal by nibbles -----

  function Pow16(k: nat): (p: nat)
    ensures p >= 1
  {
    if k == 0 then 1 else 16 * Pow16(k - 1)
  }

  /** hex_digits[digit]. */
  function HexChar(d: nat, uppercase: bool): byte
    requires d < 16
  {
    if d < 10 then d + 0x30 else if uppercase then d - 10 + 0x41 else d - 10 + 0x61
  }

  /** The digits of v with either case of letters. */
  function HexDigits(v: nat, uppercase: bool): (s: seq<byte>)
    ensures s == [] <==> v == 0
    ensures !uppercase ==> s == Digits(v, 16)
  {
    if v == 0 then [] else HexDigits(v / 16, uppercase) + [HexChar(v % 16, uppercase)]
  }

  /** value >> 4k. */
  function Top(v: nat, k: nat): nat { Over(v, Pow16(k)) }

  /** One nibble more. */
  lemma NextNibble(v: nat, k: nat)
    ensures Top(v, k + 1) == Top(v, k) / 16
  {
    var p := Pow16(k);
    var q, r, low := v / p / 16, v / p % 16, v % p;
    assert v == v / p * p + low && v / p == q * 16 + r;
    assert Pow16(k + 1) == 16 * p;
    hide Pow16;
    NibbleSplit(q, r, p, low);
    DivModUnique(16 * p, q, r * p + low);
  }

  lemma NibbleSplit(q: nat, r: nat, p: nat, low: nat)
    requires r < 16 && low < p
    ensures (q * 16 + r) * p + low == q * (16 * p) + (r * p + low)
    ensures 0 <= r * p + low < 16 * p
  {
    var c := 15 - r;
    assert c * p >= 0 && (r + c) * p == r * p + c * p;
    assert (q * 16 + r) * p == q * 16 * p + r * p;
    assert q * 16 * p == q * (16 * p);
  }

  lemma TopNibbles(v: uint32)
    ensures Top(v, 8) == 0 && Top(v, 0) == v
  {
    assert Pow16(4) == 0x1_0000;
    assert Pow16(8) == 16 * Pow16(7) == 256 * Pow16(6) == 0x1000 * Pow16(5) == 0x1_0000 * Pow16(4);
  }

  /** shell_utoa_hex: nibbles from the top, leading zeros skipped. */
  method UtoaHex(value: uint32, str: array<byte>, uppercase: bool)
    requires |HexDigits(value, uppercase)| < str.Length && str.Length >= 2
    modifies str
    ensures var text := if value == 0 then [0x30] else HexDigits(value, uppercase);
      HoldsText(str, text) && Untouched(str, |text| + 1, old(str[..]))
  {
    hide *;
    ghost var before := str[..];
    if value == 0 {
      str[0], str[1] := 0x30, 0;
      Holds(str, [0x30]);
      MakeUntouched(str, 2, before);
      return;
    }
    var n := 0;
    TopNibbles(value);
    var k := 8;
    while k > 0
      invariant 0 <= k <= 8 && n < str.Length
      invariant str[..n] == HexDigits(Top(value, k), uppercase)
      invariant forall i | n <= i < str.Length :: str[i] == before[i]
    {
      k := k - 1;
      HexStep(value, k, uppercase);
      HexPrefix(value, k, uppercase);
      var digit := Top(value, k) % 16;
      if digit != 0 || n != 0 {
        PutChar(str, n, HexChar(digit, uppercase));
        n := n + 1;
      }
    }
    assert n > 0;
    PutChar(str, n, 0);
    TextHeld(str, n, HexDigits(value, uppercase));
    MakeUntouched(str, n + 1, before);
  }

  lemma MakeUntouched(str: array<byte>, n: nat, before: seq<byte>)
    requires |before| == str.Length && forall i | n <= i < str.Length :: str[i] == before[i]
    ensures Untouched(str, n, before)
  {
  }

  lemma TextHeld(str: array<byte>, n: nat, text: seq<byte>)
    requires n < str.Length && |text| == n && str[..n + 1] == text + [0]
    ensures HoldsText(str, text)
  {
    assert str[..n + 1][..n] == text && str[..n + 1][n] == 0;
  }

  method PutChar(str: array<byte>, n: nat, c: byte)
    requires n < str.Length
    modifies str
    ensures str[..n + 1] == old(str[..n]) + [c] && forall i | n < i < str.Length :: str[i] == old(str[i])
  {
    str[n] := c;
  }

  lemma Holds(str: array<byte>, text: seq<byte>)
    requires |text| < str.Length && str[..|text|] == text && str[|text|] == 0
    ensures HoldsText(str, text)
  {
  }

  /** The text grows by each nibble but leading zeros. */
  lemma HexStep(v: nat, k: nat, uppercase: bool)
    ensures var before, d := HexDigits(Top(v, k + 1), uppercase), Top(v, k) % 16;
      HexDigits(Top(v, k), uppercase) == if d != 0 || before != [] then before + [HexChar(d, uppercase)] else before
  {
    NextNibble(v, k);
    hide Top, HexChar;
  }

  lemma {:induction false} HexPrefix(v: nat, k: nat, uppercase: bool)
    ensures |HexDigits(Top(v, k), uppercase)| <= |HexDigits(v, uppercase)|
  {
    if k == 0 {
      assert Top(v, 0) == v;
    } else {
      NextNibble(v, k - 1);
      HexPrefix(v, k - 1, uppercase);
    }
  }

  // ----- parsing -----

  function SkipBlanks(s: seq<byte>): (i: nat)
    ensures i <= |s| && (i < |s| ==> s[i] != 0x20 && s[i] != 0x09)
  {
    if s == [] || (s[0] != 0x20 && s[0] != 0x09) then 0 else 1 + SkipBlanks(s[1..])
  }

  /** The base that a text announces, and where its digits begin. */
  function Prefix(s: seq<byte>, base: int): (r: (int, nat))
    ensures r.1 <= |s|
  {
    if base != 0 then (base, 0)
    else if s != [] && s[0] == 0x30 then
      if |s| > 1 && (s[1] == 0x78 || s[1] == 0x58) then (16, 2) else (8, 1)
    else (10, 0)
  }

  /** shell_strtoul: the value of the digits after blanks and prefix, modulo 2^32, and where they end. */
  function Parsed(s: seq<byte>, base: int): (uint32, nat) {
    var i := SkipBlanks(s);
    var (b, j) := Prefix(s[i..], base);
    var digits := s[i + j..];
    var n := RunLength(digits, b);
    (if b <= 0 then 0 else Wrap32(Value(digits[..n], b)), i + j + n)
  }

  lemma WrapStep(x: nat, b: nat, d: nat)
    ensures Wrap32(Wrap32(x) * b + d) == Wrap32(x * b + d)
  {
    var q := x / 0x1_0000_0000;
    assert x * b + d == (q * b) * 0x1_0000_0000 + (Wrap32(x) * b + d) by {
      assert x == q * 0x1_0000_0000 + Wrap32(x);
      Distribute(q, 0x1_0000_0000, Wrap32(x), b);
    }
    ModAdd(q * b, Wrap32(x) * b + d);
  }

  lemma Distribute(q: nat, m: nat, r: nat, b: nat)
    ensures (q * m + r) * b == q * b * m + r * b
  {
  }

  lemma ModAdd(q: nat, r: int)
    ensures (q * 0x1_0000_0000 + r) % 0x1_0000_0000 == r % 0x1_0000_0000
  {
  }

  lemma ValueStep(s: seq<byte>, i: nat, b: nat)
    requires i < |s| && forall k | 0 <= k <= i :: DigitOf(s[k]).Some?
    ensures Value(s[..i + 1], b) == Value(s[..i], b) * b + DigitOf(s[i]).value
  {
    assert s[..i + 1][..i] == s[..i];
  }

  /** The blanks in front. */
  method SkipLeading(s: CString) returns (i: nat)
    ensures i == SkipBlanks(s)
  {
    i := 0;
    while i < |s| && (s[i] == 0x20 || s[i] == 0x09)
      invariant i <= |s| && SkipBlanks(s) == i + SkipBlanks(s[i..])
    {
      assert s[i..][1..] == s[i + 1..];
      i := i + 1;
    }
  }

  /** The digit loop of shell_strtoul. */
  method ParseRun(digits: seq<byte>, base: int) returns (result: uint32, n: nat)
    ensures n == RunLength(digits, base)
    ensures result == if base <= 0 then 0 else Wrap32(Value(digits[..n], base))
  {
    result, n := 0, 0;
    while n < |digits|
      invariant n <= |digits| && (forall i | 0 <= i < n :: IsDigit(digits[i], base))
      invariant result == if base <= 0 then 0 else Wrap32(Value(digits[..n], base))
    {
      var c := digits[n];
      var digit;
      if 0x30 <= c <= 0x39 { digit := c - 0x30; }
      else if 0x61 <= c <= 0x66 { digit := c - 0x61 + 10; }
      else if 0x41 <= c <= 0x46 { digit := c - 0x41 + 10; }
      else { break; }
      if digit >= base { break; }
      ValueStep(digits, n, base);
      WrapStep(Value(digits[..n], base), base, digit);
      result := Wrap32(result * base + digit);
      n := n + 1;
    }
    RunIs(digits, base, n);
  }

  /** The base detection of shell_strtoul: the base and where the digits begin. */
  method DetectBase(s: CString, start: nat, base: int) returns (b: int, i: nat)
    requires start <= |s|
    ensures start <= i <= |s| && (b, i - start) == Prefix(s[start..], base)
  {
    b, i := base, start;
    if b == 0 {
      if i < |s| && s[i] == 0x30 {
        if i + 1 < |s| && (s[i + 1] == 0x78 || s[i + 1] == 0x58) {
          b, i := 16, i + 2;
        } else {
          b, i := 8, i + 1;
        }
      } else {
        b := 10;
      }
    }
  }

  /** shell_strtoul. */
  method Strtoul(s: CString, base: int) returns (result: uint32, end: nat)
    ensures (result, end) == Parsed(s, base)
  {
    hide SkipBlanks, RunLength, Value, Wrap32, Prefix;
    var start := SkipLeading(s);
    var b, i := DetectBase(s, start, base);
    var n;
    result, n := ParseRun(s[i..], b);
    end := i + n;
  }

  // ----- printing then parsing -----

  lemma DigitCharMeans(r: nat)
    requires r < 36
    ensures DigitOf(DigitChar(r)) == if r < 16 then Some(r) else None
    ensures DigitChar(r) != 0x20 && DigitChar(r) != 0x09 && DigitChar(r) != 0x0A && DigitChar(r) != 0x2D && DigitChar(r) != 0x2B
    ensures DigitChar(r) == 0x30 <==> r == 0
    ensures DigitChar(r) != 0
  {
  }

  predicate AllDigits(s: seq<byte>, b: int) { forall i | 0 <= i < |s| :: IsDigit(s[i], b) }

  /** Digits that can all be read back stand for the number printed. */
  lemma {:induction false} DigitsValue(v: nat, b: nat)
    requires 2 <= b <= 36 && forall i | 0 <= i < |Digits(v, b)| :: DigitOf(Digits(v, b)[i]).Some?
    ensures AllDigits(Digits(v, b), b) && Value(Digits(v, b), b) == v
    decreases v
  {
    hide *;
    if v == 0 {
      NoDigits(b);
    } else {
      QuotRem(v, b);
      var q, r, s := Quot(v, b), Rem(v, b), Digits(v, b);
      LastDigit(v, b);
      assert s[|s| - 1] == DigitChar(r) && forall i | 0 <= i < |s| - 1 :: Digits(q, b)[i] == s[i];
      DigitCharMeans(r);
      DigitsValue(q, b);
      OneDigitMore(Digits(q, b), DigitChar(r), b);
    }
  }

  lemma NoDigits(b: nat)
    requires 2 <= b <= 36
    ensures Digits(0, b) == [] && AllDigits([], b) && Value([], b) == 0
  {
  }

  lemma LastDigit(v: nat, b: nat)
    requires 2 <= b <= 36 && v > 0
    ensures 0 <= Rem(v, b) < 36 && 0 <= Quot(v, b) < v && Digits(v, b) == Digits(Quot(v, b), b) + [DigitChar(Rem(v, b))]
  {
    QuotRem(v, b);
  }

  lemma OneDigitMore(s: seq<byte>, c: byte, b: nat)
    requires AllDigits(s, b) && DigitOf(c).Some? && DigitOf(c).value < b
    ensures forall i | 0 <= i < |s + [c]| :: DigitOf((s + [c])[i]).Some?
    ensures AllDigits(s + [c], b) && DigitOf(c).Some?
    ensures (forall i | 0 <= i < |s| :: DigitOf(s[i]).Some?) && Value(s + [c], b) == Value(s, b) * b + DigitOf(c).value
  {
    hide DigitOf;
    assert (s + [c])[..|s|] == s;
  }

  /** Up to base 16 they can. */
  lemma {:induction false} DigitsReadable(v: nat, b: nat)
    requires 2 <= b <= 36
    ensures b <= 16 ==> forall i | 0 <= i < |Digits(v, b)| :: DigitOf(Digits(v, b)[i]).Some?
    ensures v > 0 ==> forall i | 0 <= i < |Digits(v, b)| :: Digits(v, b)[i] !in [0, 0x20, 0x09, 0x0A, 0x2D, 0x2B]
    ensures v > 0 ==> Digits(v, b)[0] != 0x30
    decreases v
  {
    if v > 0 {
      QuotRem(v, b);
      DigitCharMeans(Rem(v, b));
      DigitsReadable(Quot(v, b), b);
    }
  }

  /** A proper prefix of the digits is the digits of a smaller number. */
  lemma {:induction false} PrefixIsSmaller(v: nat, b: nat, n: nat) returns (w: nat)
    requires 2 <= b <= 36 && n < |Digits(v, b)|
    ensures w < v && Digits(v, b)[..n] == Digits(w, b)
    decreases v
  {
    QuotRem(v, b);
    w := Quot(v, b);
    assert Digits(v, b)[..|Digits(w, b)|] == Digits(w, b);
    if n < |Digits(w, b)| {
      assert Digits(v, b)[..n] == Digits(w, b)[..n];
      w := PrefixIsSmaller(w, b, n);
    }
  }

  lemma PlainDigits(s: seq<byte>, b: int)
    requires s != [] && s[0] != 0x20 && s[0] != 0x09 && b != 0
    ensures var n := RunLength(s, b);
      Parsed(s, b) == (if b < 0 then 0 else Wrap32(Value(s[..n], b)), n)
  {
    assert s[0..] == s;
  }

  /** shell_strtoul after shell_utoa gives the number back exactly when every digit printed can be
      read: always up to base 16. */
  lemma UtoaThenStrtoul(v: uint32, b: nat)
    requires 2 <= b <= 36
    ensures Parsed(Text(v, b), b).0 == v <==> forall i | 0 <= i < |Text(v, b)| :: DigitOf(Text(v, b)[i]).Some?
    ensures b <= 16 ==> Parsed(Text(v, b), b) == (v, |Text(v, b)|)
    ensures 0 !in Text(v, b)
  {
    var s := Text(v, b);
    DigitsReadable(v, b);
    if v == 0 {
      ZeroText(b);
    } else {
      hide Digits, Value, RunLength, Parsed, DigitOf;
      PlainDigits(s, b);
      if forall i | 0 <= i < |s| :: DigitOf(s[i]).Some? {
        DigitsValue(v, b);
        ReadBack(s, b, v);
      } else {
        ShortRun(v, b);
      }
    }
  }

  lemma SmallValue(v: uint32)
    ensures Wrap32(v) == v
  {
  }

  lemma ZeroText(b: nat)
    requires 2 <= b
    ensures Parsed([0x30], b) == (0, 1)
  {
    var s: seq<byte> := [0x30];
    PlainDigits(s, b);
    RunIs(s, b, 1);
    assert s[..1] == s && s[..0] == [];
  }

  lemma ShortRun(v: uint32, b: nat)
    requires 2 <= b <= 36 && v > 0 && exists i :: 0 <= i < |Digits(v, b)| && DigitOf(Digits(v, b)[i]).None?
    ensures var s := Digits(v, b); Wrap32(Value(s[..RunLength(s, b)], b)) != v
  {
    hide Digits, Value, RunLength, DigitOf, Wrap32;
    var s := Digits(v, b);
    var i :| 0 <= i < |s| && DigitOf(s[i]).None?;
    RunReads(s, b, i);
    var n := RunLength(s, b);
    var w := PrefixIsSmaller(v, b, n);
    assert forall k | 0 <= k < n :: s[..n][k] == s[k];
    DigitsValue(w, b);
    SmallValue(w);
  }

  lemma RunReads(s: seq<byte>, b: nat, i: nat)
    requires i < |s| && DigitOf(s[i]).None?
    ensures RunLength(s, b) <= i && forall k | 0 <= k < RunLength(s, b) :: DigitOf(s[k]).Some?
  {
    hide DigitOf, RunLength;
    assert forall k | 0 <= k < RunLength(s, b) :: IsDigit(s[k], b);
  }

  /** shell_utoa in base 16 and shell_utoa_hex in lower case print the same text, and the upper-case
      text reads back as well. */
  lemma HexAgrees(v: uint32)
    ensures Text(v, 16) == if v == 0 then [0x30] else HexDigits(v, false)
    ensures v > 0 ==> Parsed(HexDigits(v, true), 16) == (v, |HexDigits(v, true)|)
  {
    if v > 0 {
      UpperValue(v);
      UpperLead(v);
      hide HexDigits, IsDigit, Value, Parsed;
      ReadBack(HexDigits(v, true), 16, v);
    }
  }

  /** A text that is all digits reads back as its value. */
  lemma ReadBack(s: seq<byte>, b: nat, v: uint32)
    requires s != [] && s[0] != 0x20 && s[0] != 0x09 && b != 0 && AllDigits(s, b) && Value(s, b) == v
    ensures Parsed(s, b) == (v, |s|)
  {
    PlainDigits(s, b);
    hide RunLength, IsDigit, Value, Parsed;
    RunIs(s, b, |s|);
    assert s[..|s|] == s;
    SmallValue(v);
  }

  lemma UpperLead(v: nat)
    requires v > 0
    ensures HexDigits(v, true) != [] && HexDigits(v, true)[0] != 0x20 && HexDigits(v, true)[0] != 0x09
  {
    UpperValue(v);
    assert IsDigit(HexDigits(v, true)[0], 16);
  }

  lemma {:induction false} UpperValue(v: nat)
    ensures AllDigits(HexDigits(v, true), 16) && Value(HexDigits(v, true), 16) == v
    decreases v
  {
    if v > 0 {
      UpperValue(v / 16);
      var s := HexDigits(v, true);
      assert s[..|s| - 1] == HexDigits(v / 16, true);
    }
  }

  /** Base detection: decimal text, and hexadecimal text after "0x", read back in base 0. */
  lemma BaseZero(v: uint32)
    ensures Parsed(Text(v, 10), 0).0 == v
    ensures Parsed([0x30, 0x78] + Text(v, 16), 0) == (v, 2 + |Text(v, 16)|)
  {
    hide Digits, Parsed;
    UtoaThenStrtoul(v, 10);
    UtoaThenStrtoul(v, 16);
    TextLead(v, 10);
    TextLead(v, 16);
    HexPrefixed(Text(v, 16));
    if v == 0 {
      OctalZero();
    } else {
      DecimalDetected(Text(v, 10));
    }
  }

  lemma TextLead(v: nat, b: nat)
    requires 2 <= b <= 36
    ensures Text(v, b)[0] != 0x20 && Text(v, b)[0] != 0x09 && (v > 0 ==> Text(v, b)[0] != 0x30)
  {
    DigitsReadable(v, b);
    assert v > 0 ==> Digits(v, b)[0] in Digits(v, b);
  }

  lemma DecimalDetected(s: seq<byte>)
    requires s != [] && s[0] != 0x20 && s[0] != 0x09 && s[0] != 0x30
    ensures Parsed(s, 0) == Parsed(s, 10)
  {
    assert s[0..] == s;
  }

  lemma HexPrefixed(s: seq<byte>)
    requires s != [] && s[0] != 0x20 && s[0] != 0x09
    ensures Parsed([0x30, 0x78] + s, 0) == (Parsed(s, 16).0, 2 + Parsed(s, 16).1)
  {
    hide RunLength, Value, Wrap32, DigitOf, IsDigit;
    PlainDigits(s, 16);
    var t := [0x30, 0x78] + s;
    assert t[0..] == t && t[2..] == s;
  }

  lemma OctalZero()
    ensures Parsed([0x30], 0).0 == 0
  {
    var s: seq<byte> := [0x30];
    assert s[0..] == s && s[1..] == [];
  }

  /** A text of octal digits after "0" reads back in base 0, so "017" is 15. */
  lemma OctalRead(v: uint32)
    ensures Parsed([0x30] + Text(v, 8), 0) == (v, 1 + |Text(v, 8)|)
    ensures Parsed([0x30, 0x31, 0x37], 0) == (15, 3)
  {
    hide Digits, Parsed;
    UtoaThenStrtoul(v, 8);
    UtoaThenStrtoul(15, 8);
    TextLead(v, 8);
    TextLead(15, 8);
    OctalLead(v);
    OctalPrefixed(Text(v, 8));
    OctalFifteen();
    OctalPrefixed(Text(15, 8));
    assert [0x30] + Text(15, 8) == [0x30, 0x31, 0x37];
  }

  lemma OctalLead(v: nat)
    ensures Text(v, 8)[0] != 0x78 && Text(v, 8)[0] != 0x58
  {
    if v > 0 {
      DigitsReadable(v, 8);
      DigitsValue(v, 8);
      hide Digits;
      assert IsDigit(Digits(v, 8)[0], 8);
    }
  }

  lemma OctalFifteen()
    ensures Text(15, 8) == [0x31, 0x37]
  {
    assert Digits(1, 8) == [0x31];
  }

  lemma OctalPrefixed(s: seq<byte>)
    requires s != [] && s[0] != 0x20 && s[0] != 0x09 && s[0] != 0x78 && s[0] != 0x58
    ensures Parsed([0x30] + s, 0) == (Parsed(s, 8).0, 1 + Parsed(s, 8).1)
  {
    hide RunLength, Value, Wrap32, DigitOf, IsDigit;
    PlainDigits(s, 8);
    var t := [0x30] + s;
    assert t[0..] == t && t[1..] == s;
  }

  /** Blanks in front change nothing but where the digits are. */
  lemma BlankSkipped(s: seq<byte>, c: byte, base: int)
    requires c == 0x20 || c == 0x09
    ensures Parsed([c] + s, base) == (Parsed(s, base).0, 1 + Parsed(s, base).1)
  {
    hide RunLength, Value, Wrap32, DigitOf, IsDigit, Prefix, SkipBlanks;
    var t, i := [c] + s, SkipBlanks(s);
    OneBlank(s, c);
    assert t[1 + i..] == s[i..];
    var j := Prefix(s[i..], base).1;
    assert t[1 + i + j..] == s[i + j..];
  }

  lemma OneBlank(s: seq<byte>, c: byte)
    requires c == 0x20 || c == 0x09
    ensures SkipBlanks([c] + s) == 1 + SkipBlanks(s)
  {
    assert ([c] + s)[1..] == s;
  }

  // ----- atoi -----

  predicate Space(c: byte) { c == 0x20 || c == 0x09 || c == 0x0A }

  function SkipSpaces(s: seq<byte>): (i: nat)
    ensures i <= |s| && (i < |s| ==> !Space(s[i]))
  {
    if s == [] || !Space(s[0]) then 0 else 1 + SkipSpaces(s[1..])
  }

  /** Sign and number of characters it takes. */
  function Sign(s: seq<byte>): (r: (int, nat))
    ensures r.1 <= |s|
  {
    if s != [] && s[0] == 0x2D then (-1, 1) else if s != [] && s[0] == 0x2B then (1, 1) else (1, 0)
  }

  /** atoi: signed wrap-around of the decimal digits after spaces and sign. */
  function AtoiOf(s: seq<byte>): int32 {
    var t := s[SkipSpaces(s)..];
    var (sign, j) := Sign(t);
    Int32Of(sign * Int32Of(RunValue(t[j..], 10)))
  }

  lemma WrapSignedStep(x: nat, d: nat)
    ensures Int32Of(Int32Of(x) * 10 + d) == Int32Of(x * 10 + d)
  {
    var q := (x + 0x8000_0000) / 0x1_0000_0000;
    assert x == q * 0x1_0000_0000 + Int32Of(x);
    SignedAgain(10 * q, Int32Of(x) * 10 + d);
  }

  lemma SignedAgain(q: nat, r: int)
    ensures Int32Of(q * 0x1_0000_0000 + r) == Int32Of(r)
  {
    ModAdd(q, r + 0x8000_0000);
  }

  /** The digit loop of atoi. */
  method AtoiRun(s: seq<byte>) returns (result: int32)
    ensures result == Int32Of(RunValue(s, 10))
  {
    result := 0;
    var n := 0;
    while n < |s| && 0x30 <= s[n] <= 0x39
      invariant n <= |s| && (forall i | 0 <= i < n :: IsDigit(s[i], 10))
      invariant result == Int32Of(Value(s[..n], 10))
    {
      ValueStep(s, n, 10);
      WrapSignedStep(Value(s[..n], 10), s[n] - 0x30);
      result := Int32Of(result * 10 + (s[n] - 0x30));
      n := n + 1;
    }
    RunIs(s, 10, n);
  }

  /** atoi. */
  method Atoi(s: CString) returns (result: int32)
    ensures result == AtoiOf(s)
  {
    hide RunValue;
    var i := 0;
    while i < |s| && (s[i] == 0x20 || s[i] == 0x09 || s[i] == 0x0A)
      invariant i <= |s| && SkipSpaces(s) == i + SkipSpaces(s[i..])
    {
      assert s[i..][1..] == s[i + 1..];
      i := i + 1;
    }
    ghost var t := s[i..];
    assert t != [] ==> t[0] == s[i];
    var sign: int := 1;
    if i < |s| && s[i] == 0x2D {
      sign := -1;
      i := i + 1;
      assert s[i..] == t[1..];
    } else if i < |s| && s[i] == 0x2B {
      i := i + 1;
      assert s[i..] == t[1..];
    } else {
      assert s[i..] == t[0..];
    }
    var n: int := AtoiRun(s[i..]);
    result := Int32Of(sign * n);
  }

  /** Spaces, tabs and line ends in front change nothing, and neither does one plus sign before digits. */
  lemma AtoiSkips(s: seq<byte>, c: byte)
    ensures c == 0x20 || c == 0x09 || c == 0x0A ==> AtoiOf([c] + s) == AtoiOf(s)
    ensures s != [] && 0x30 <= s[0] <= 0x39 ==> AtoiOf([0x2B] + s) == AtoiOf(s)
  {
    if c == 0x20 || c == 0x09 || c == 0x0A { SpaceSkipped(s, c); }
    if s != [] && 0x30 <= s[0] <= 0x39 { PlusSkipped(s); }
    hide AtoiOf;
  }

  lemma SpaceSkipped(s: seq<byte>, c: byte)
    requires Space(c)
    ensures AtoiOf([c] + s) == AtoiOf(s)
  {
    hide RunValue, Int32Of, Sign;
    var t, i := [c] + s, SkipSpaces(s);
    assert t[1..] == s;
    assert SkipSpaces(t) == 1 + i;
    hide SkipSpaces;
    assert t[1 + i..] == s[i..];
  }

  lemma PlusSkipped(s: seq<byte>)
    requires s != [] && 0x30 <= s[0] <= 0x39
    ensures AtoiOf([0x2B] + s) == AtoiOf(s)
  {
    hide RunValue, Int32Of;
    var u := [0x2B] + s;
    assert u[0..] == u && u[1..] == s && s[0..] == s;
  }

  /** A leading digit of a negative number is printed below the digits. */
  lemma {:induction false} NegativeLead(v: int, b: nat)
    requires v < 0 && 2 <= b <= 36
    ensures Digits(v, b)[0] < 0x30
    decreases -v
  {
    QuotRem(v, b);
    if Quot(v, b) < 0 {
      NegativeLead(Quot(v, b), b);
    } else {
      assert Digits(Quot(v, b), b) == [];
      assert Quot(v, b) * b == 0;
    }
  }

  lemma RunOfDigits(v: nat)
    requires v > 0
    ensures RunValue(Digits(v, 10), 10) == v
  {
    DigitsReadable(v, 10);
    DigitsValue(v, 10);
    var s := Digits(v, 10);
    hide Digits;
    RunIs(s, 10, |s|);
    assert s[..|s|] == s;
  }

  /** atoi after itoa in base 10 gives the number back -- every number but the least, whose negation
      wraps around to itself. */
  lemma ItoaThenAtoi(v: int32)
    ensures AtoiOf(SignedText(v, 10)) == v <==> v != -0x8000_0000
  {
    hide Negated, Int32Of, AtoiOf, RunValue, Digits;
    if v == 0 {
      ZeroAtoi();
    } else if v > 0 {
      PositiveText(v);
    } else {
      NegativeAtoi(v);
    }
  }

  lemma ZeroAtoi()
    ensures AtoiOf([0x30]) == 0
  {
    ZeroRun();
    PlainAtoi([0x30]);
  }

  lemma WrapSigned(v: int32)
    ensures Negated(v) == if v == -0x8000_0000 then v else -v
    ensures Int32Of(v) == v && (v < 0 && v != -0x8000_0000 ==> Int32Of(-1 * Int32Of(-v)) == v)
    ensures Int32Of(-1 * Int32Of(0)) == 0
  {
  }

  lemma NegativeAtoi(v: int32)
    requires v < 0
    ensures AtoiOf([0x2D] + Digits(Negated(v), 10)) == if v == -0x8000_0000 then 0 else v
  {
    WrapSigned(v);
    hide Negated, Int32Of, AtoiOf, RunValue, Digits;
    NegativeText(Digits(Negated(v), 10));
    if v == -0x8000_0000 {
      NegativeLead(v, 10);
      EmptyRun(Digits(v, 10));
    } else {
      RunOfDigits(-v);
    }
  }

  lemma PlainAtoi(s: seq<byte>)
    requires s != [] && !Space(s[0]) && s[0] != 0x2D && s[0] != 0x2B
    ensures AtoiOf(s) == Int32Of(Int32Of(RunValue(s, 10)))
  {
    assert s[0..] == s;
  }

  lemma NegativeText(digits: seq<byte>)
    ensures AtoiOf([0x2D] + digits) == Int32Of(-1 * Int32Of(RunValue(digits, 10)))
  {
    var s := [0x2D] + digits;
    assert s[0..] == s && s[1..] == digits;
  }

  lemma PositiveText(v: int32)
    requires v > 0
    ensures AtoiOf(Text(v, 10)) == v
  {
    DigitsReadable(v, 10);
    RunOfDigits(v);
    hide Digits, RunValue, AtoiOf;
    PlainAtoi(Digits(v, 10));
  }

  lemma ZeroRun()
    ensures RunValue([0x30], 10) == 0
  {
    var s: seq<byte> := [0x30];
    RunIs(s, 10, 1);
    assert s[..1] == s && s[..0] == [];
  }

  lemma EmptyRun(s: seq<byte>)
    requires s == [] || s[0] < 0x30
    ensures RunValue(s, 10) == 0
  {
    RunIs(s, 10, 0);
    assert s[..0] == [];
  }
}
