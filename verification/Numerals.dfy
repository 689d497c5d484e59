/** Digits and what they are worth: shared by the printer (lib/kstdio.c) and the scanner (sh/token.c). */
module Numerals {
  import opened Words
  import opened Arith

  function DigitChar(d: nat, small: bool): char
    requires d < 36
  {
    if d < 10 then '0' + d as char else (if small then 'a' else 'A') + (d - 10) as char
  }

  // _8char2int, _10char2int and _16char2int; None is the error value -1.
  function DigitVal(c: char, base: nat): Option<nat> {
    if '0' <= c <= '9' && c as int - '0' as int < base then Some(c as int - '0' as int)
    else if base == 16 && 'a' <= c <= 'f' then Some(10 + c as int - 'a' as int)
    else if base == 16 && 'A' <= c <= 'F' then Some(10 + c as int - 'A' as int)
    else None
  }

  const CAPITALS: string := "0123456789ABCDEFGHIJKLMNOPQRSTUVWXYZ"
  const SMALLS: string := "0123456789abcdefghijklmnopqrstuvwxyz"

  lemma DigitCharIs(d: nat, small: bool)
    requires d < 36
    ensures DigitChar(d, small) == (if small then SMALLS else CAPITALS)[d]
  {
  }

  /** The digits that the scanner takes are the first ones of the two rows that are printed. */
  lemma DigitValIff(c: char, base: nat, d: nat)
    requires ScannerBase(base)
    ensures DigitVal(c, base) == Some(d) <==> d < base && (c == CAPITALS[d] || c == SMALLS[d])
  {
    if d < base {
      DigitCharIs(d, false);
      DigitCharIs(d, true);
    }
  }

  // Every character is a digit of the base.
  predicate Numeral(s: seq<char>, base: nat) {
    forall i | 0 <= i < |s| :: DigitVal(s[i], base).Some?
  }

  // Positional value, most significant digit first.
  function Value(s: seq<char>, base: nat): nat
    requires Numeral(s, base)
  {
    if s == [] then 0 else Value(s[..|s| - 1], base) * base + DigitVal(s[|s| - 1], base).value
  }

  // The digits of n, most significant first.
  function DigitsOf(n: nat, base: nat, small: bool): (s: seq<char>)
    requires 2 <= base <= 36
    ensures |s| > 0
  {
    if n < base then [DigitChar(n, small)]
    else
      NextDigit(n, base);
      DigitsOf(n / base, base, small) + [DigitChar(n % base, small)]
  }

  lemma NextDigit(n: nat, base: nat)
    requires 2 <= base <= n
    ensures n / base < n && 0 < n / base && n / base * base + n % base == n && n % base < base
  {
  }

  predicate ScannerBase(base: nat) { base == 8 || base == 10 || base == 16 }

  lemma DigitCharVal(d: nat, base: nat, small: bool)
    requires ScannerBase(base) && d < base
    ensures DigitVal(DigitChar(d, small), base) == Some(d)
  {
  }

  /** Printed digits are worth the number they print. */
  lemma {:induction false} DigitsValue(n: nat, base: nat, small: bool)
    requires ScannerBase(base)
    ensures Numeral(DigitsOf(n, base, small), base) && Value(DigitsOf(n, base, small), base) == n
  {
    var s := DigitsOf(n, base, small);
    if n < base {
      DigitCharVal(n, base, small);
    } else {
      NextDigit(n, base);
      DigitsValue(n / base, base, small);
      DigitCharVal(n % base, base, small);
      assert s[..|s| - 1] == DigitsOf(n / base, base, small);
    }
  }

  function Power(base: nat, k: nat): nat {
    if k == 0 then 1 else Power(base, k - 1) * base
  }

  lemma TwoToThe32()
    ensures Power(2, 32) == TWO32
  {
    assert Power(2, 8) == 0x100;
    assert Power(2, 16) == 0x1_0000;
    assert Power(2, 24) == 0x100_0000;
  }

  /** A number below base^k has at most k digits (one at least). */
  lemma {:induction false} DigitsLength(n: nat, base: nat, small: bool, k: nat)
    requires 2 <= base <= 36 && 0 < k && n < Power(base, k)
    ensures |DigitsOf(n, base, small)| <= k
  {
    if base <= n {
      NextDigit(n, base);
      if Power(base, k - 1) <= n / base { MulLe(Power(base, k - 1), n / base, base); }
      DigitsLength(n / base, base, small, k - 1);
    }
  }

  lemma {:induction false} LeadingZeros(k: nat, s: seq<char>, base: nat)
    requires ScannerBase(base) && Numeral(s, base)
    ensures Numeral(Repeat('0', k) + s, base) && Value(Repeat('0', k) + s, base) == Value(s, base)
  {
    var z := Repeat('0', k) + s;
    if s != [] {
      LeadingZeros(k, s[..|s| - 1], base);
      assert z[..|z| - 1] == Repeat('0', k) + s[..|s| - 1];
    } else if k > 0 {
      LeadingZeros(k - 1, s, base);
      assert z[..|z| - 1] == Repeat('0', k - 1) + s;
    }
  }

  function Repeat(c: char, k: nat): (s: seq<char>)
    ensures |s| == k && forall i | 0 <= i < k :: s[i] == c
  {
    seq(k, _ => c)
  }

  lemma ValueSnoc(s: string, c: char, base: nat)
    requires Numeral(s, base) && DigitVal(c, base).Some?
    ensures Numeral(s + [c], base) && Value(s + [c], base) == Value(s, base) * base + DigitVal(c, base).value
  {
  }

  lemma WrapDrops(x: nat, q: nat)
    ensures (x + q * TWO32) % TWO32 == x % TWO32
  {
  }

  // Wrapped operands give the wrapped result.
  lemma WrapAdds(a: nat, b: nat, d: nat)
    ensures (a % TWO32 + d * (b % TWO32)) % TWO32 == (a + d * b) % TWO32
  {
    var q, r := b / TWO32, b % TWO32;
    Distribute(r, q * TWO32, d);
    Associate(d, q, TWO32);
    ProductSplits(d, b, r, q);
    WrapDrops(a % TWO32 + d * r, a / TWO32 + d * q);
    Distribute(a / TWO32, d * q, TWO32);
  }

  lemma ProductSplits(d: nat, b: nat, r: nat, q: nat)
    requires b == r + q * TWO32
    ensures d * b == d * r + d * q * TWO32
  {
  }
}
