/** number() and skip_atoi() of lib/kstdio.c. */
module Printer {
  import opened Words
  import opened Arith
  import opened Strings
  import opened Numerals

  // The flag bits, each a power of two in the source.
  datatype Flags = Flags(zeroPad: bool, sign: bool, plus: bool, space: bool, left: bool, special: bool, small: bool)

  const NO_FLAGS: Flags := Flags(false, false, false, false, false, false, false)

  // A 32-bit word printed as signed is negative from 2^31 on.
  predicate Negative(num: u32, f: Flags) { f.sign && num >= 0x8000_0000 }

  function Magnitude(num: u32, f: Flags): u32 {
    if Negative(num, f) then TWO32 - num else num
  }

  function SignText(num: u32, f: Flags): seq<char> {
    if Negative(num, f) then "-" else if f.plus then "+" else if f.space then " " else ""
  }

  function PrefixText(base: nat, f: Flags): seq<char> {
    if !f.special then "" else if base == 8 then "0" else if base == 16 then (if f.small then "0x" else "0X") else ""
  }

  function Max(a: int, b: int): int { if a < b then b else a }

  // How much the field is wider than its sign, prefix and digits.
  function FieldFill(num: u32, base: nat, size: int, precision: int, f: Flags): nat
    requires 2 <= base <= 36
  {
    var digits := |DigitsOf(Magnitude(num, f), base, f.small)|;
    Max(0, size - |SignText(num, f)| - |PrefixText(base, f)| - Max(digits, precision))
  }

  function Concat(a: seq<char>, b: seq<char>, c: seq<char>, d: seq<char>, e: seq<char>, f: seq<char>,
                  g: seq<char>): seq<char> {
    a + b + c + d + e + f + g
  }

  /** What a conversion looks like: blanks, sign, prefix, zeros, digits, blanks. The field is
      filled on the right with blanks, or on the left with zeros after the prefix, or on
      the left with blanks. */
  function NumberText(num: u32, base: nat, size: int, precision: int, f: Flags): seq<char>
    requires 2 <= base <= 36
  {
    var ds := DigitsOf(Magnitude(num, f), base, f.small);
    FieldText(SignText(num, f), PrefixText(base, f), f,
              FieldFill(num, base, size, precision, f), Max(0, precision - |ds|), ds)
  }

  function FieldText(sign: seq<char>, prefix: seq<char>, f: Flags, fill: nat, zeros: nat,
                     digits: seq<char>): seq<char> {
    Concat(Repeat(' ', if f.left || f.zeroPad then 0 else fill), sign, prefix,
           Repeat('0', if f.left || !f.zeroPad then 0 else fill), Repeat('0', zeros), digits,
           Repeat(' ', if f.left then fill else 0))
  }

  /** The text is as wide as the field, or as its sign, prefix and digits if these need more. */
  lemma NumberWidth(num: u32, base: nat, size: int, precision: int, f: Flags)
    requires 2 <= base <= 36
    ensures var digits := |DigitsOf(Magnitude(num, f), base, f.small)|;
      |NumberText(num, base, size, precision, f)| ==
      Max(size, |SignText(num, f)| + |PrefixText(base, f)| + Max(digits, precision))
  {
  }

  /** Without flags, width and precision the text is the digits alone. */
  lemma PlainText(num: u32, base: nat, small: bool)
    requires 2 <= base <= 36
    ensures NumberText(num, base, -1, -1, NO_FLAGS.(small := small)) == DigitsOf(num, base, small)
  {
  }

  /** Without width and precision it is sign, prefix and digits. */
  lemma BareText(num: u32, base: nat, f: Flags)
    requires 2 <= base <= 36
    ensures NumberText(num, base, -1, -1, f) ==
            SignText(num, f) + PrefixText(base, f) + DigitsOf(Magnitude(num, f), base, f.small)
  {
  }

  /** A precision puts zeros before the digits. */
  lemma PreciseText(num: u32, base: nat, precision: int, f: Flags)
    requires 2 <= base <= 36
    ensures var ds := DigitsOf(Magnitude(num, f), base, f.small);
      NumberText(num, base, -1, precision, f) ==
      SignText(num, f) + PrefixText(base, f) + Repeat('0', Max(0, precision - |ds|)) + ds
  {
  }

  // How far a field of the given size is wider than the text alone.
  function Fill(num: u32, base: nat, size: int, f: Flags): nat
    requires 2 <= base <= 36
  {
    Max(0, size - |NumberText(num, base, -1, -1, f)|)
  }

  lemma AsField(num: u32, base: nat, size: int, f: Flags)
    requires 2 <= base <= 36
    ensures NumberText(num, base, size, -1, f) ==
            FieldText(SignText(num, f), PrefixText(base, f), f, Fill(num, base, size, f), 0,
                      DigitsOf(Magnitude(num, f), base, f.small))
  {
    NumberWidth(num, base, -1, -1, f);
  }

  /** A width adds blanks before the text, behind it with the flag "left", and zeros before the
      digits with the flag "zeroPad" alone. */
  lemma RightText(num: u32, base: nat, size: int, f: Flags)
    requires 2 <= base <= 36 && !f.left && !f.zeroPad
    ensures NumberText(num, base, size, -1, f) ==
            Repeat(' ', Fill(num, base, size, f)) + NumberText(num, base, -1, -1, f)
  {
    AsField(num, base, size, f);
    BareText(num, base, f);
    Regrouped(Repeat(' ', Fill(num, base, size, f)), SignText(num, f), PrefixText(base, f),
              DigitsOf(Magnitude(num, f), base, f.small));
  }

  lemma LeftText(num: u32, base: nat, size: int, f: Flags)
    requires 2 <= base <= 36 && f.left
    ensures NumberText(num, base, size, -1, f) ==
            NumberText(num, base, -1, -1, f) + Repeat(' ', Fill(num, base, size, f))
  {
    AsField(num, base, size, f);
    BareText(num, base, f);
    Regrouped([], SignText(num, f), PrefixText(base, f), DigitsOf(Magnitude(num, f), base, f.small));
  }

  lemma ZeroText(num: u32, base: nat, size: int, f: Flags)
    requires 2 <= base <= 36 && f.zeroPad && !f.left
    ensures NumberText(num, base, size, -1, f) ==
            SignText(num, f) + PrefixText(base, f) + Repeat('0', Fill(num, base, size, f)) +
            DigitsOf(Magnitude(num, f), base, f.small)
  {
    AsField(num, base, size, f);
    NoBlanks(SignText(num, f), PrefixText(base, f), Repeat('0', Fill(num, base, size, f)),
             DigitsOf(Magnitude(num, f), base, f.small));
  }

  lemma Regrouped(a: seq<char>, b: seq<char>, c: seq<char>, d: seq<char>)
    ensures a + b + c + Repeat('0', 0) + Repeat('0', 0) + d + Repeat(' ', 0) == a + (b + c + d)
    ensures Repeat(' ', 0) + b + c + Repeat('0', 0) + Repeat('0', 0) + d == b + c + d
  {
  }

  lemma NoBlanks(a: seq<char>, b: seq<char>, c: seq<char>, d: seq<char>)
    ensures Repeat(' ', 0) + a + b + c + Repeat('0', 0) + d + Repeat(' ', 0) == a + b + c + d
  {
  }

  // A number in its shortest form.
  function Shortest(w: u32, base: nat, sign: bool, small: bool): seq<char>
    requires 2 <= base <= 36
  {
    if sign && 0x8000_0000 <= w then "-" + DigitsOf(0x1_0000_0000 - w, base, small) else DigitsOf(w, base, small)
  }

  // A signed number, with the mark before it when it is not negative.
  function SignedWith(mark: seq<char>, w: u32): seq<char> {
    if 0x8000_0000 <= w then "-" + DigitsOf(0x1_0000_0000 - w, 10, false) else mark + DigitsOf(w, 10, false)
  }

  // No flags but those that the conversion sets.
  predicate Unmarked(f: Flags) { f == NO_FLAGS.(sign := f.sign, small := f.small) }

  lemma ShortestText(w: u32, base: nat, f: Flags)
    requires 2 <= base <= 36 && Unmarked(f)
    ensures NumberText(w, base, -1, -1, f) == Shortest(w, base, f.sign, f.small)
  {
    BareText(w, base, f);
  }

  lemma SignedText(w: u32)
    ensures NumberText(w, 10, -1, -1, NO_FLAGS.(sign := true, plus := true)) == SignedWith("+", w)
    ensures NumberText(w, 10, -1, -1, NO_FLAGS.(sign := true, space := true)) == SignedWith(" ", w)
  {
    BareText(w, 10, NO_FLAGS.(sign := true, plus := true));
    BareText(w, 10, NO_FLAGS.(sign := true, space := true));
  }

  lemma PrefixedText(w: u32)
    ensures NumberText(w, 8, -1, -1, NO_FLAGS.(special := true)) == "0" + DigitsOf(w, 8, false)
    ensures NumberText(w, 16, -1, -1, NO_FLAGS.(special := true)) == "0X" + DigitsOf(w, 16, false)
    ensures NumberText(w, 16, -1, -1, NO_FLAGS.(special := true, small := true)) == "0x" + DigitsOf(w, 16, true)
  {
    PrefixedOnly(w, 8, NO_FLAGS.(special := true));
    PrefixedOnly(w, 16, NO_FLAGS.(special := true));
    PrefixedOnly(w, 16, NO_FLAGS.(special := true, small := true));
  }

  lemma PrefixedOnly(w: u32, base: nat, f: Flags)
    requires 2 <= base <= 36 && f == NO_FLAGS.(special := true, small := f.small)
    ensures NumberText(w, base, -1, -1, f) == PrefixText(base, f) + DigitsOf(w, base, f.small)
  {
    BareText(w, base, f);
  }

  // The digits, with zeros before them up to the precision.
  function Precise(w: u32, base: nat, n: int, sign: bool, small: bool): seq<char>
    requires 2 <= base <= 36
  {
    var ds := DigitsOf(if sign && 0x8000_0000 <= w then 0x1_0000_0000 - w else w, base, small);
    (if sign && 0x8000_0000 <= w then "-" else "") + (Repeat('0', Max(0, n - |ds|)) + ds)
  }

  lemma PreciseIs(w: u32, base: nat, n: nat, f: Flags)
    requires 2 <= base <= 36 && Unmarked(f)
    ensures NumberText(w, base, -1, n, f) == Precise(w, base, n, f.sign, f.small)
  {
    PreciseText(w, base, n, f);
  }

  // A text filled up to n characters with blanks, on the left or on the right.
  function Indented(t: seq<char>, n: int): seq<char> { Repeat(' ', Max(0, n - |t|)) + t }

  function Extended(t: seq<char>, n: int): seq<char> { t + Repeat(' ', Max(0, n - |t|)) }

  lemma RightShortest(w: u32, base: nat, n: nat, f: Flags)
    requires 2 <= base <= 36 && Unmarked(f)
    ensures NumberText(w, base, n, -1, f) == Indented(Shortest(w, base, f.sign, f.small), n)
  {
    ShortestText(w, base, f);
    RightText(w, base, n, f);
  }

  lemma LeftShortest(w: u32, base: nat, n: nat, f: Flags)
    requires 2 <= base <= 36 && Unmarked(f)
    ensures NumberText(w, base, n, -1, f.(left := true)) == Extended(Shortest(w, base, f.sign, f.small), n)
  {
    BareText(w, base, f.(left := true));
    LeftText(w, base, n, f.(left := true));
  }

  lemma ZeroFilled(w: u32, base: nat, n: nat, f: Flags)
    requires 2 <= base <= 36 && Unmarked(f)
    ensures NumberText(w, base, n, -1, f.(zeroPad := true)) ==
            Precise(w, base, if f.sign && 0x8000_0000 <= w then n - 1 else n, f.sign, f.small)
  {
    BareText(w, base, f.(zeroPad := true));
    ZeroText(w, base, n, f.(zeroPad := true));
  }

  lemma AppendAssoc(a: seq<char>, b: seq<char>, c: seq<char>)
    ensures (a + b) + c == a + (b + c)
  {
  }

  // Writing the pieces one after the other behind t.
  lemma AppendConcat(t: seq<char>, a: seq<char>, b: seq<char>, c: seq<char>, d: seq<char>, e: seq<char>,
                     f: seq<char>, g: seq<char>)
    ensures t + a + b + c + d + e + f + g == t + Concat(a, b, c, d, e, f, g)
  {
  }

  // Blanks, sign and prefix, a numeral, blanks.
  predicate Framed(text: seq<char>, head: seq<char>, numeral: seq<char>, after: seq<char>) {
    text == head + numeral + after
  }

  /** Behind blanks, sign and prefix, and before blanks, stands a numeral worth the magnitude. */
  lemma NumberValue(num: u32, base: nat, size: int, precision: int, f: Flags)
    returns (numeral: string, before: nat, after: nat)
    requires ScannerBase(base)
    ensures Framed(NumberText(num, base, size, precision, f),
                   Repeat(' ', before) + SignText(num, f) + PrefixText(base, f), numeral, Repeat(' ', after))
    ensures Numeral(numeral, base) && Value(numeral, base) == Magnitude(num, f)
  {
    var fill := FieldFill(num, base, size, precision, f);
    var ds := DigitsOf(Magnitude(num, f), base, f.small);
    var zeros := Max(0, precision - |ds|);
    before := if f.left || f.zeroPad then 0 else fill;
    after := if f.left then fill else 0;
    DigitsValue(Magnitude(num, f), base, f.small);
    numeral := FieldFramed(SignText(num, f), PrefixText(base, f), f, fill, zeros, ds, base, before, after);
  }

  lemma FieldFramed(sign: string, prefix: string, f: Flags, fill: nat, zeros: nat, ds: string, base: nat,
                    before: nat, after: nat)
    returns (numeral: string)
    requires ScannerBase(base) && Numeral(ds, base)
    requires before == (if f.left || f.zeroPad then 0 else fill) && after == if f.left then fill else 0
    ensures Framed(FieldText(sign, prefix, f, fill, zeros, ds),
                   Repeat(' ', before) + sign + prefix, numeral, Repeat(' ', after))
    ensures Numeral(numeral, base) && Value(numeral, base) == Value(ds, base)
  {
    var z: nat := if f.left || !f.zeroPad then 0 else fill;
    LeadingZeros(zeros, ds, base);
    LeadingZeros(z, Repeat('0', zeros) + ds, base);
    Regroup(Repeat(' ', before), sign, prefix, Repeat('0', z), Repeat('0', zeros), ds, Repeat(' ', after));
    numeral := Repeat('0', z) + (Repeat('0', zeros) + ds);
  }

  lemma Regroup(a: seq<char>, b: seq<char>, c: seq<char>, d: seq<char>, e: seq<char>, f: seq<char>, g: seq<char>)
    ensures Framed(Concat(a, b, c, d, e, f, g), a + b + c, d + (e + f), g)
  {
  }

  // The output buffer and the pointer that steps through it.
  class Output {
    const buf: array<char>
    var pos: nat

    constructor (capacity: nat)
      ensures Valid() && Text() == [] && buf.Length == capacity && fresh(buf)
    {
      buf := new char[capacity](_ => '\0');
      pos := 0;
    }

    ghost predicate Valid()
      reads this
    {
      pos <= buf.Length
    }

    ghost function Text(): seq<char>
      requires Valid()
      reads this, buf
    {
      buf[..pos]
    }

    // *str++ = c
    method Put(c: char)
      requires Valid() && pos < buf.Length
      modifies this`pos, buf
      ensures Valid() && Text() == old(Text()) + [c]
    {
      buf[pos] := c;
      pos := pos + 1;
    }

    // while (n-- > 0) *str++ = c, and the value n is left with
    method PutWhile(n: int, c: char) returns (n': int)
      requires Valid() && pos + n <= buf.Length
      modifies this`pos, buf
      ensures Valid() && Text() == old(Text()) + Repeat(c, Max(0, n)) && n' == if n > 0 then -1 else n - 1
    {
      n' := n;
      ghost var k: nat := 0;
      while n' > 0
        invariant Valid() && n' == n - k && (0 < n ==> k <= n) && (n <= 0 ==> k == 0) && pos + n' <= buf.Length
        invariant Text() == old(Text()) + Repeat(c, k)
      {
        Put(c);
        assert Repeat(c, k) + [c] == Repeat(c, k + 1);
        n', k := n' - 1, k + 1;
      }
      n' := n' - 1;
    }

    method PutAll(s: seq<char>)
      requires Valid() && pos + |s| <= buf.Length
      modifies this`pos, buf
      ensures Valid() && Text() == old(Text()) + s
    {
      for i := 0 to |s|
        invariant Valid() && pos + |s| - i <= buf.Length && Text() == old(Text()) + s[..i]
      {
        Put(s[i]);
      }
      assert s[..|s|] == s;
    }
  }

  function Reverse(s: seq<char>): (r: seq<char>)
    ensures |r| == |s|
  {
    if s == [] then [] else Reverse(s[1..]) + [s[0]]
  }

  lemma {:induction false} ReverseSnoc(s: seq<char>, c: char)
    ensures Reverse(s + [c]) == [c] + Reverse(s)
  {
    if s != [] {
      assert (s + [c])[1..] == s[1..] + [c];
      ReverseSnoc(s[1..], c);
    }
  }

  // The digits of num, least significant first, as the division loop leaves them in tmp.
  method Convert(num: u32, base: nat, small: bool) returns (tmp: array<char>, i: nat)
    requires 2 <= base <= 36
    ensures fresh(tmp) && tmp.Length == 36 && i <= 36 && Reverse(tmp[..i]) == DigitsOf(num, base, small)
  {
    tmp := new char[36](_ => '0');
    if num == 0 {
      tmp[0] := '0';
      i := 1;
      assert tmp[..1] == ['0'];
    } else {
      AtMost32Digits(num, base, small);
      i := Divide(tmp, num, base, small);
    }
  }

  // The division loop.
  method Divide(tmp: array<char>, num: nat, base: nat, small: bool) returns (i: nat)
    requires 2 <= base <= 36 && 0 < num && |DigitsOf(num, base, small)| <= tmp.Length
    modifies tmp
    ensures i <= tmp.Length && Reverse(tmp[..i]) == DigitsOf(num, base, small)
  {
    var n: nat := num;
    i := 0;
    while n != 0
      invariant 0 <= n && i <= tmp.Length && Remaining(n, base, small) + Reverse(tmp[..i]) == DigitsOf(num, base, small)
      decreases n
    {
      ghost var done := tmp[..i];
      OneDigit(n, base, small, done);
      tmp[i] := DigitChar(n % base, small);
      assert tmp[..i + 1] == done + [DigitChar(n % base, small)];
      n, i := n / base, i + 1;
    }
  }

  // The digits still to come.
  function Remaining(n: nat, base: nat, small: bool): seq<char>
    requires 2 <= base <= 36
  {
    if n == 0 then [] else DigitsOf(n, base, small)
  }

  lemma OneDigit(n: nat, base: nat, small: bool, done: seq<char>)
    requires 2 <= base <= 36 && 0 < n
    ensures n / base < n
    ensures Remaining(n, base, small) + Reverse(done) ==
            Remaining(n / base, base, small) + Reverse(done + [DigitChar(n % base, small)])
  {
    var c := DigitChar(n % base, small);
    ReverseSnoc(done, c);
    if base <= n {
      NextDigit(n, base);
      AppendAssoc(DigitsOf(n / base, base, small), [c], Reverse(done));
    } else {
      QuotientUnique(n, base, 0);
      Remainder(n, base, 0);
    }
  }

  lemma AtMost32Digits(num: u32, base: nat, small: bool)
    requires 2 <= base <= 36
    ensures |DigitsOf(num, base, small)| <= 32
  {
    TwoToThe32();
    PowerMonotone(2, base, 32);
    DigitsLength(num, base, small, 32);
  }

  lemma {:induction false} PowerMonotone(a: nat, b: nat, k: nat)
    requires a <= b
    ensures Power(a, k) <= Power(b, k)
  {
    if k > 0 {
      PowerMonotone(a, b, k - 1);
      MulLe(Power(a, k - 1), Power(b, k - 1), a);
      MulLe(a, b, Power(b, k - 1));
    }
  }

  /** number(): whatever the flags, it appends the text described above; a base it does not
      support leaves the buffer alone. */
  method Number(out: Output, num: u32, base: nat, size: int, precision: int, flags: Flags) returns (ok: bool)
    requires out.Valid()
    requires 2 <= base <= 36 ==> out.pos + |NumberText(num, base, size, precision, flags)| <= out.buf.Length
    modifies out`pos, out.buf
    ensures out.Valid() && (ok <==> 2 <= base <= 36)
    ensures out.Text() == if ok then old(out.Text()) + NumberText(num, base, size, precision, flags)
      else old(out.Text())
  {
    if base < 2 || base > 36 { return false; }
    NumberWidth(num, base, size, precision, flags);
    var sign := SignText(num, flags);
    var sz := size - |sign|;
    if flags.special {
      if base == 16 { sz := sz - 2; } else if base == 8 { sz := sz - 1; }
    }
    assert sz == size - |sign| - |PrefixText(base, flags)|;
    var tmp, i := Convert(Magnitude(num, flags), base, flags.small);
    var prec := if i > precision then i else precision;
    assert Max(0, sz - prec) == FieldFill(num, base, size, precision, flags);
    PutField(out, sign, PrefixText(base, flags), flags, sz - prec, prec, tmp, i);
    ok := true;
  }

  // The second half of number(): from the first padding loop on.
  method PutField(out: Output, sign: seq<char>, prefix: seq<char>, flags: Flags, size0: int, prec: nat,
                  tmp: array<char>, digits: nat)
    requires tmp != out.buf && digits <= tmp.Length && digits <= prec
    requires out.Valid() && out.pos + |sign| + |prefix| + prec + Max(0, size0) <= out.buf.Length
    modifies out`pos, out.buf
    ensures out.Valid()
    ensures out.Text() ==
      old(out.Text()) + FieldText(sign, prefix, flags, Max(0, size0), prec - digits, old(Reverse(tmp[..digits])))
  {
    ghost var t, ds := out.Text(), Reverse(tmp[..digits]);
    var sz := size0;
    var c := if flags.zeroPad && !flags.left then '0' else ' ';
    NoPadding(t);
    if !flags.zeroPad && !flags.left { sz := out.PutWhile(sz, ' '); }
    out.PutAll(sign);
    out.PutAll(prefix);
    NoPadding(out.Text());
    if !flags.left { sz := out.PutWhile(sz, c); }
    var _ := out.PutWhile(prec - digits, '0');
    PutReversed(out, tmp, digits);
    sz := out.PutWhile(sz, ' ');
    var fill := Max(0, size0);
    AppendConcat(t, Repeat(' ', if flags.left || flags.zeroPad then 0 else fill), sign, prefix,
                 Repeat('0', if flags.left || !flags.zeroPad then 0 else fill), Repeat('0', prec - digits), ds,
                 Repeat(' ', if flags.left then fill else 0));
  }

  lemma NoPadding(t: seq<char>)
    ensures t + Repeat(' ', 0) == t && t + Repeat('0', 0) == t
  {
  }

  // while (i-- > 0) *str++ = tmp[i]
  method PutReversed(out: Output, tmp: array<char>, digits: nat)
    requires out.Valid() && out.pos + digits <= out.buf.Length && tmp != out.buf && digits <= tmp.Length
    modifies out`pos, out.buf
    ensures out.Valid() && out.Text() == old(out.Text()) + Reverse(tmp[..digits])
  {
    var i := digits;
    ghost var all := tmp[..digits];
    assert all[..digits] == all;
    while i > 0
      invariant 0 <= i <= digits && out.Valid() && out.pos + i <= out.buf.Length && tmp[..digits] == all
      invariant out.Text() + Reverse(all[..i]) == old(out.Text()) + Reverse(all)
    {
      i := i - 1;
      ReverseSnoc(all[..i], all[i]);
      assert all[..i + 1] == all[..i] + [all[i]];
      out.Put(tmp[i]);
    }
  }

  // The number the digits from i on are worth, in 32-bit arithmetic.
  function ReadInt(s: string, i: nat): int
    requires i <= |s|
  {
    var j := RunEnd(s, i, IsDigit);
    DigitsAreNumeral(s[i..j]);
    Signed(Value(s[i..j], 10) % TWO32)
  }

  lemma DigitsAreNumeral(s: string)
    ensures All(s, IsDigit) <==> Numeral(s, 10)
  {
  }

  // One turn of the loop below.
  lemma ScannedDigit(s: string, start: nat, i: nat)
    requires start <= i < |s| && Numeral(s[start..i], 10) && IsDigit(s[i])
    ensures Numeral(s[start..i + 1], 10)
    ensures Value(s[start..i + 1], 10) % TWO32 ==
            (Value(s[start..i], 10) % TWO32 * 10 + (s[i] as int - '0' as int)) % TWO32
  {
    assert s[start..i + 1] == s[start..i] + [s[i]];
    ValueSnoc(s[start..i], s[i], 10);
    WrapAdds(s[i] as int - '0' as int, Value(s[start..i], 10), 10);
  }

  /** skip_atoi: the value of the run of digits, 0 if there is none, and where it ends. */
  method SkipAtoi(s: string, start: nat) returns (n: int, i: nat)
    requires start <= |s|
    ensures i == RunEnd(s, start, IsDigit) && n == ReadInt(s, start)
  {
    var w: u32 := 0;
    i := start;
    while IsDigit(At(s, i))
      invariant start <= i <= |s| && RunEnd(s, start, IsDigit) == RunEnd(s, i, IsDigit)
      invariant Numeral(s[start..i], 10) && w == Value(s[start..i], 10) % TWO32
      decreases |s| - i
    {
      ScannedDigit(s, start, i);
      w := (w * 10 + (s[i] as int - '0' as int)) % TWO32;
      i := i + 1;
    }
    n := Signed(w);
  }

  /** A plain decimal is scanned back to the number it was printed from. */
  lemma PrintedDecimalIsScanned(num: u32, rest: string)
    requires num < 0x8000_0000 && !IsDigit(At(rest, 0))
    ensures var s := NumberText(num, 10, -1, -1, NO_FLAGS) + rest;
            && IsDigit(At(s, 0)) && ReadInt(s, 0) == num &&
              RunEnd(s, 0, IsDigit) == |NumberText(num, 10, -1, -1, NO_FLAGS)|
  {
    var ds := DigitsOf(num, 10, false);
    PlainText(num, 10, false);
    DigitsValue(num, 10, false);
    DigitsAreNumeral(ds);
    assert (ds + rest)[0..|ds|] == ds;
    RunEndUnique(ds + rest, 0, |ds|, IsDigit);
  }
}
