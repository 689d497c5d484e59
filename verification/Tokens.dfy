/** sh/token.c: what the characters of a lexeme are turned into. */
module Tokens {
  import opened Words
  import opened Arith
  import opened Numerals

  datatype TokenError = Generic | NumStrTooLong | StrTooLong | NumStrTooShort | WrongNum

  datatype Token =
    | Void
    | Error(code: TokenError)
    | Unknown
    | Identifier(str: string)
    | Variable(str: string)
    | LString(str: string)
    | LUInteger(integer: u32)
    | Eoi

  const TOKEN_STR_LEN_MAX := 15

  // _set_strlex: the token, if its lexeme fits the token's buffer.
  function Capped(t: Token, lexeme: string): Token {
    if |lexeme| > TOKEN_STR_LEN_MAX then Error(StrTooLong) else t
  }

  // The longest numeral a setter takes.
  function Cap(base: nat): nat {
    if base == 8 then 11 else if base == 10 then 9 else 8
  }

  function IntToken(base: nat, lexeme: string): Token {
    if |lexeme| > Cap(base) then Error(NumStrTooLong)
    else if !Numeral(lexeme, base) then Error(WrongNum)
    else LUInteger(Value(lexeme, base) % TWO32)
  }

  lemma PowersFit()
    ensures Power(8, 10) == 0x4000_0000 && Power(10, 9) <= TWO32 && Power(16, 8) == TWO32
  {
    assert Power(8, 5) == 0x8000;
    assert Power(10, 5) == 100000;
    assert Power(16, 4) == 0x1_0000;
  }

  /** A numeral of at most k digits is worth less than base^k. */
  lemma {:induction false} ShortBelow(s: string, base: nat, k: nat)
    requires ScannerBase(base) && Numeral(s, base) && |s| <= k
    ensures Value(s, base) < Power(base, k)
    decreases k
  {
    if k > 0 {
      var front := if s == [] then s else s[..|s| - 1];
      ShortBelow(front, base, k - 1);
      MulLe(Value(front, base) + 1, Power(base, k - 1), base);
      Distribute(Value(front, base), 1, base);
    }
  }

  /** When an octal numeral that the setter takes fits in 32 bits: it has fewer than eleven
      digits, or the first of the eleven is at most 3. */
  lemma OctalFitsIff(s: string)
    requires Numeral(s, 8) && 0 < |s| <= Cap(8)
    ensures Value(s, 8) < TWO32 <==> |s| <= 10 || s[0] <= '3'
  {
    PowersFit();
    if |s| <= 10 {
      ShortBelow(s, 8, 10);
    } else {
      assert s == [s[0]] + s[1..];
      forall i | 0 <= i < 10 ensures DigitVal(s[1..][i], 8).Some? { assert s[1..][i] == s[i + 1]; }
      assert DigitVal(s[0], 8).Some?;
      FrontDigit(s[0], s[1..], 8);
      ShortBelow(s[1..], 8, 10);
    }
  }

  /** The setters are exact, and not only modulo the word size, for every decimal and hexadecimal
      numeral they take, and for the octal ones that fit. */
  lemma SetterExactIff(base: nat, s: string)
    requires ScannerBase(base) && Numeral(s, base) && 0 < |s| <= Cap(base)
    ensures IntToken(base, s).LUInteger?
    ensures IntToken(base, s).integer == Value(s, base) <==> base != 8 || |s| <= 10 || s[0] <= '3'
  {
    PowersFit();
    if base == 8 { OctalFitsIff(s); } else { ShortBelow(s, base, Cap(base)); }
  }

  /** Within its cap a lexeme has no room to wrap: every lexeme scanned as octal starts with 0. */
  lemma CapFits(base: nat, s: string)
    requires ScannerBase(base) && Numeral(s, base) && 0 < |s| <= Cap(base) && (base == 8 ==> s[0] == '0')
    ensures Value(s, base) < TWO32 && IntToken(base, s) == LUInteger(Value(s, base))
  {
    SetterExactIff(base, s);
  }

  /** A numeral for which the octal setter wraps. */
  lemma ElevenOctalDigitsWrap()
    ensures Numeral("40000000000", 8) && |"40000000000"| == Cap(8)
    ensures IntToken(8, "40000000000") == LUInteger(0) && Value("40000000000", 8) == TWO32
  {
    assert Value("4", 8) == 4;
    Shifted("4", 5, 8);
    Shifted("400000", 5, 8);
    assert Power(8, 5) == 0x8000;
    assert "4" + Repeat('0', 5) == "400000";
    assert "400000" + Repeat('0', 5) == "40000000000";
  }

  lemma {:induction false} Shifted(s: string, k: nat, base: nat)
    requires ScannerBase(base) && Numeral(s, base)
    ensures Numeral(s + Repeat('0', k), base) && Value(s + Repeat('0', k), base) == Value(s, base) * Power(base, k)
  {
    var z := s + Repeat('0', k);
    if k > 0 {
      Shifted(s, k - 1, base);
      assert z[..|z| - 1] == s + Repeat('0', k - 1);
      Associate(Value(s, base), Power(base, k - 1), base);
    } else {
      assert z == s;
    }
  }

  /** Reading one digit more at the front. */
  lemma {:induction false} FrontDigit(c: char, s: string, base: nat)
    requires ScannerBase(base) && DigitVal(c, base).Some? && Numeral(s, base)
    ensures Numeral([c] + s, base)
    ensures Value([c] + s, base) == DigitVal(c, base).value * Power(base, |s|) + Value(s, base)
  {
    var d := DigitVal(c, base).value;
    if s == [] {
      ValueSnoc([], c, base);
      assert [] + [c] == [c] + s;
    } else {
      var front, last := s[..|s| - 1], s[|s| - 1];
      FrontDigit(c, front, base);
      ValueSnoc([c] + front, last, base);
      assert [c] + s == [c] + front + [last];
      FrontFits(d, Power(base, |front|), Value(front, base), base);
    }
  }

  lemma FrontFits(d: nat, p: nat, v: nat, base: nat)
    ensures (d * p + v) * base == d * (p * base) + v * base
  {
  }

  // One turn of the loop below, for the digit at end.
  lemma Accumulated(lexeme: string, end: nat, base: nat)
    requires ScannerBase(base) && end < |lexeme| && DigitVal(lexeme[end], base).Some?
    requires Numeral(lexeme[end + 1..], base)
    ensures var rest := lexeme[end + 1..]; var d := DigitVal(lexeme[end], base).value;
            && Numeral(lexeme[end..], base)
            && Value(lexeme[end..], base) % TWO32 ==
               (Value(rest, base) % TWO32 + d * (Power(base, |rest|) % TWO32)) % TWO32
            && Power(base, |rest| + 1) % TWO32 == base * (Power(base, |rest|) % TWO32) % TWO32
  {
    var rest, d := lexeme[end + 1..], DigitVal(lexeme[end], base).value;
    assert lexeme[end..] == [lexeme[end]] + rest;
    FrontDigit(lexeme[end], rest, base);
    WrapAdds(Value(rest, base), Power(base, |rest|), d);
    WrapAdds(0, Power(base, |rest|), base);
  }

  /** _set_luinteger: from the last digit to the first, in 32-bit arithmetic. */
  method SetLuinteger(base: nat, lexeme: string) returns (token: Token)
    requires ScannerBase(base) && |lexeme| > 0
    ensures token == if Numeral(lexeme, base) then LUInteger(Value(lexeme, base) % TWO32) else Error(WrongNum)
  {
    var number: u32, factor: u32, end := 0, 1, |lexeme|;
    while end > 0
      invariant 0 <= end <= |lexeme| && Numeral(lexeme[end..], base)
      invariant number == Value(lexeme[end..], base) % TWO32 && factor == Power(base, |lexeme| - end) % TWO32
    {
      end := end - 1;
      var digit := DigitVal(lexeme[end], base);
      if digit.None? { return Error(WrongNum); }
      Accumulated(lexeme, end, base);
      number := (number + digit.value * factor) % TWO32;
      factor := base * factor % TWO32;
    }
    assert lexeme[0..] == lexeme;
    return LUInteger(number);
  }

  // token_set_luinteger8, token_set_luinteger10 and token_set_luinteger16.
  method SetCapped(base: nat, lexeme: string) returns (token: Token)
    requires ScannerBase(base) && |lexeme| > 0
    ensures token == IntToken(base, lexeme)
  {
    if |lexeme| > Cap(base) { return Error(NumStrTooLong); }
    token := SetLuinteger(base, lexeme);
  }
}
