/** kvsprintf() of lib/kstdio.c. */
module Format {
  import opened Words
  import opened Strings
  import opened Numerals
  import opened Printer

  // An argument: the word on the stack, and the string there if it is used as an address.
  datatype Arg = Arg(word: u32, text: string)

  // A directive as far as its conversion character: arg is the next argument to be taken.
  datatype Directive = Directive(flags: Flags, width: int, precision: int, at: nat, arg: nat)

  // ---- What a format string stands for ----

  predicate IsFlag(c: char) { c == '-' || c == '+' || c == ' ' || c == '#' || c == '0' }

  function AddFlag(f: Flags, c: char): Flags {
    match c
    case '-' => f.(left := true)
    case '+' => f.(plus := true)
    case ' ' => f.(space := true)
    case '#' => f.(special := true)
    case '0' => f.(zeroPad := true)
    case _ => f
  }

  function AddFlags(f: Flags, s: string): Flags {
    if s == "" then f else AddFlag(AddFlags(f, s[..|s| - 1]), s[|s| - 1])
  }

  lemma OneFlag(s: string, start: nat, i: nat)
    requires start <= i < |s|
    ensures AddFlags(NO_FLAGS, s[start..i + 1]) == AddFlag(AddFlags(NO_FLAGS, s[start..i]), s[i])
  {
    assert s[start..i + 1] == s[start..i] + [s[i]];
    LastFlag(s[start..i], s[i]);
  }

  lemma LastFlag(s: string, c: char)
    ensures AddFlags(NO_FLAGS, s + [c]) == AddFlag(AddFlags(NO_FLAGS, s), c)
  {
    assert (s + [c])[..|s|] == s;
  }

  // The most negative word is its own negation.
  function Negated(n: int): int { if n == -0x8000_0000 then n else -n }

  function WithWidth(fmt: string, d: Directive, args: nat -> Arg): (r: Directive)
    requires d.at <= |fmt|
    ensures d.at <= r.at <= |fmt|
  {
    if IsDigit(At(fmt, d.at)) then d.(width := ReadInt(fmt, d.at), at := RunEnd(fmt, d.at, IsDigit))
    else if At(fmt, d.at) == '*' then
      var w := Signed(args(d.arg).word);
      if w < 0 then d.(width := Negated(w), flags := d.flags.(left := true), arg := d.arg + 1)
        else d.(width := w, arg := d.arg + 1)
    else d
  }

  function WithPrecision(fmt: string, d: Directive, args: nat -> Arg): (r: Directive)
    requires d.at <= |fmt|
    ensures d.at <= r.at <= |fmt|
  {
    if At(fmt, d.at) != '.' then d
    else if IsDigit(At(fmt, d.at + 1)) then
      d.(precision := Max(0, ReadInt(fmt, d.at + 1)), at := RunEnd(fmt, d.at + 1, IsDigit))
    else if At(fmt, d.at + 1) == '*' then
      d.(precision := Max(0, Signed(args(d.arg).word)), at := d.at + 1, arg := d.arg + 1)
    else d.(precision := 0, at := d.at + 1)
  }

  function WithLength(fmt: string, d: Directive): (r: Directive)
    requires d.at <= |fmt|
    ensures d.at <= r.at <= |fmt|
  {
    if At(fmt, d.at) in "hlL" then d.(at := d.at + 1) else d
  }

  // Behind the % at i - 1; k is the next argument.
  function ReadDirective(fmt: string, i: nat, args: nat -> Arg, k: nat): (d: Directive)
    requires i <= |fmt|
    ensures i <= d.at <= |fmt|
  {
    var j := RunEnd(fmt, i, IsFlag);
    WithLength(fmt,
      WithPrecision(fmt, WithWidth(fmt, Directive(AddFlags(NO_FLAGS, fmt[i..j]), -1, -1, j, k), args), args))
  }

  // Text in a field: blanks before it, or behind it if it is flush left.
  function Padded(text: string, width: int, left: bool): string {
    var fill := Max(0, width - |text|);
    if left then text + Repeat(' ', fill) else Repeat(' ', fill) + text
  }

  function Shortened(text: string, precision: int): string {
    if 0 <= precision < |text| then text[..precision] else text
  }

  function PointerField(d: Directive): Directive {
    if d.width == -1 then d.(width := 8, flags := d.flags.(zeroPad := true)) else d
  }

  predicate TakesArgument(c: char) { c in "csopxXdiun" }

  // The text of a directive with conversion c and argument a.
  function Piece(c: char, d: Directive, a: Arg): string {
    match c
    case 'c' => Padded([(a.word % 256) as char], d.width, d.flags.left)
    case 's' => Padded(Shortened(a.text, d.precision), d.width, d.flags.left)
    case 'o' => NumberText(a.word, 8, d.width, d.precision, d.flags)
    case 'p' => NumberText(a.word, 16, PointerField(d).width, d.precision, PointerField(d).flags)
    case 'x' => NumberText(a.word, 16, d.width, d.precision, d.flags.(small := true))
    case 'X' => NumberText(a.word, 16, d.width, d.precision, d.flags)
    case 'd' => NumberText(a.word, 10, d.width, d.precision, d.flags.(sign := true))
    case 'i' => NumberText(a.word, 10, d.width, d.precision, d.flags.(sign := true))
    case 'u' => NumberText(a.word, 10, d.width, d.precision, d.flags)
    case 'n' => ""
    case _ => if c == '%' || c == '\0' then "%" else ['%', c]
  }

  // What one turn of the loop writes, where it leaves the format and the arguments, and the
  // address at which %n stores the length so far.
  datatype Step = Step(text: string, next: nat, arg: nat, store: Option<u32>)

  function StepOf(fmt: string, d: Directive, args: nat -> Arg): (s: Step)
    requires d.at <= |fmt|
    ensures d.at <= s.next <= |fmt| && (d.at < |fmt| ==> d.at < s.next)
  {
    var c := At(fmt, d.at);
    Step(Piece(c, d, args(d.arg)), if d.at < |fmt| then d.at + 1 else d.at,
         if TakesArgument(c) then d.arg + 1 else d.arg, if c == 'n' then Some(args(d.arg).word) else None)
  }

  function OneStep(fmt: string, i: nat, args: nat -> Arg, k: nat): (s: Step)
    ensures i < |fmt| ==> i < s.next <= |fmt|
  {
    if i >= |fmt| then Step("", i, k, None)
    else if fmt[i] != '%' then Step([fmt[i]], i + 1, k, None)
    else StepOf(fmt, ReadDirective(fmt, i + 1, args, k), args)
  }

  // The steps through a format: position and next argument to what the turn does.
  type Steps = (nat, nat) -> Step

  function StepsOf(fmt: string, args: nat -> Arg): Steps { (i: nat, k: nat) => OneStep(fmt, i, args, k) }

  function Text(steps: Steps, len: nat, i: nat, k: nat): string
    decreases len - i
  {
    var s := steps(i, k);
    if i < s.next <= len then s.text + Text(steps, len, s.next, s.arg) else ""
  }

  function Stored(store: Option<u32>, n: nat): seq<(u32, nat)> {
    if store.Some? then [(store.value, n)] else []
  }

  // The stores of %n, address and value, behind those in log; n characters are already written.
  function Stores(steps: Steps, len: nat, i: nat, k: nat, n: nat, log: seq<(u32, nat)>): seq<(u32, nat)>
    decreases len - i
  {
    var s := steps(i, k);
    if i < s.next <= len then Stores(steps, len, s.next, s.arg, n + |s.text|, log + Stored(s.store, n)) else log
  }

  // The text and the stores of a whole format.
  function Formatted(fmt: string, args: nat -> Arg): string { Text(StepsOf(fmt, args), |fmt|, 0, 0) }

  function Counted(fmt: string, args: nat -> Arg): seq<(u32, nat)> { Stores(StepsOf(fmt, args), |fmt|, 0, 0, 0, []) }

  // ---- Consequences ----

  lemma {:induction false} PlainRest(fmt: string, i: nat, args: nat -> Arg, k: nat, n: nat, log: seq<(u32, nat)>)
    requires i <= |fmt| && '%' !in fmt[i..]
    ensures var steps := StepsOf(fmt, args);
      Text(steps, |fmt|, i, k) == fmt[i..] && Stores(steps, |fmt|, i, k, n, log) == log
    decreases |fmt| - i
  {
    if i < |fmt| {
      assert fmt[i..] == [fmt[i]] + fmt[i + 1..];
      PlainRest(fmt, i + 1, args, k, n + 1, log);
      assert log + Stored(None, n) == log;
    }
  }

  /** A format without % prints itself and stores nothing. */
  lemma PlainFormat(fmt: string, args: nat -> Arg)
    requires '%' !in fmt
    ensures Formatted(fmt, args) == fmt && Counted(fmt, args) == []
  {
    assert fmt[0..] == fmt;
    PlainRest(fmt, 0, args, 0, 0, []);
  }

  // ---- One directive, character by character ----

  // The character ends a directive.
  predicate IsConversion(c: char) {
    !IsFlag(c) && !IsDigit(c) && c != '*' && c != '.' && c != 'h' && c != 'l' && c != 'L' && c != '\0'
  }

  predicate IsWidth(ws: string) { All(ws, IsDigit) && (ws != "" ==> ws[0] != '0') }

  predicate IsPrecision(ps: string) { ps == "" || (ps[0] == '.' && All(ps[1..], IsDigit)) }

  // The directive at i, in its parts: where the flags, the width and the precision end.
  predicate DirectiveAt(fmt: string, i: nat, j1: nat, j2: nat, j3: nat) {
    && i < j1 <= j2 <= j3 < |fmt| && fmt[i] == '%' && IsConversion(fmt[j3])
    && All(fmt[i + 1..j1], IsFlag) && IsWidth(fmt[j1..j2]) && IsPrecision(fmt[j2..j3])
  }

  // A number in a format, -1 if there is none.
  function NumberIn(s: string): int {
    if s == "" || !Numeral(s, 10) then -1 else Signed(Value(s, 10) % TWO32)
  }

  function PrecisionIn(ps: string): int {
    if ps == "" then -1 else Max(0, NumberIn(ps[1..]))
  }

  lemma WidthReads(fmt: string, d: Directive, j: nat, args: nat -> Arg)
    requires d.at <= j < |fmt| && IsWidth(fmt[d.at..j]) && d.width == -1 && !IsDigit(fmt[j]) && fmt[j] != '*'
    ensures WithWidth(fmt, d, args) == d.(width := NumberIn(fmt[d.at..j]), at := j)
  {
    var ws := fmt[d.at..j];
    DigitsAreNumeral(ws);
    RunEndUnique(fmt, d.at, j, IsDigit);
    assert ws != "" ==> fmt[d.at] == ws[0];
  }

  lemma PrecisionReads(fmt: string, d: Directive, j: nat, args: nat -> Arg)
    requires d.at <= j < |fmt| && IsPrecision(fmt[d.at..j]) && d.precision == -1 && IsConversion(fmt[j])
    ensures WithPrecision(fmt, d, args) == d.(precision := PrecisionIn(fmt[d.at..j]), at := j)
  {
    var ps := fmt[d.at..j];
    if ps != "" {
      assert fmt[d.at] == ps[0] && fmt[d.at + 1..j] == ps[1..];
      DigitsAreNumeral(ps[1..]);
      RunEndUnique(fmt, d.at + 1, j, IsDigit);
      assert |ps| > 1 ==> fmt[d.at + 1] == ps[1..][0];
    }
  }

  lemma PartStarts(fmt: string, i: nat, j1: nat, j2: nat, j3: nat)
    requires DirectiveAt(fmt, i, j1, j2, j3)
    ensures fmt[j2] == (if j2 < j3 then '.' else fmt[j3]) && (j1 < j2 ==> IsDigit(fmt[j1]) && fmt[j1] != '0')
  {
    if j1 < j2 { assert fmt[j1] == fmt[j1..j2][0]; }
    if j2 < j3 { assert fmt[j2] == fmt[j2..j3][0]; }
  }

  /** How a directive is read: each part sets its own field, and k stays the next argument. */
  lemma DirectiveReads(fmt: string, i: nat, j1: nat, j2: nat, j3: nat, args: nat -> Arg, k: nat)
    requires DirectiveAt(fmt, i, j1, j2, j3)
    ensures ReadDirective(fmt, i + 1, args, k) ==
            Directive(AddFlags(NO_FLAGS, fmt[i + 1..j1]), NumberIn(fmt[j1..j2]), PrecisionIn(fmt[j2..j3]), j3, k)
  {
    PartStarts(fmt, i, j1, j2, j3);
    RunEndUnique(fmt, i + 1, j1, IsFlag);
    var d := Directive(AddFlags(NO_FLAGS, fmt[i + 1..j1]), -1, -1, j1, k);
    WidthReads(fmt, d, j2, args);
    PrecisionReads(fmt, d.(width := NumberIn(fmt[j1..j2]), at := j2), j3, args);
  }

  // A format with one directive and nothing else, and what is read there.
  function Spec(flags: string, ws: string, ps: string, c: char): string { "%" + flags + ws + ps + [c] }

  function SpecDirective(flags: string, ws: string, ps: string): Directive {
    Directive(AddFlags(NO_FLAGS, flags), NumberIn(ws), PrecisionIn(ps), 1 + |flags| + |ws| + |ps|, 0)
  }

  predicate IsSpec(fmt: string, flags: string, ws: string, ps: string, c: char) {
    var j1 := 1 + |flags|;
    && |fmt| == j1 + |ws| + |ps| + 1 && fmt[0] == '%' && fmt[|fmt| - 1] == c
    && fmt[1..j1] == flags && fmt[j1..j1 + |ws|] == ws && fmt[j1 + |ws|..|fmt| - 1] == ps
    && All(flags, IsFlag) && IsWidth(ws) && IsPrecision(ps) && IsConversion(c)
  }

  lemma SpecIs(flags: string, ws: string, ps: string, c: char)
    requires All(flags, IsFlag) && IsWidth(ws) && IsPrecision(ps) && IsConversion(c)
    ensures IsSpec(Spec(flags, ws, ps, c), flags, ws, ps, c)
  {
  }

  lemma SpecIsDirective(fmt: string, flags: string, ws: string, ps: string, c: char)
    requires IsSpec(fmt, flags, ws, ps, c)
    ensures DirectiveAt(fmt, 0, 1 + |flags|, 1 + |flags| + |ws|, |fmt| - 1)
  {
  }

  lemma SpecReads(fmt: string, flags: string, ws: string, ps: string, c: char, args: nat -> Arg)
    requires IsSpec(fmt, flags, ws, ps, c)
    ensures ReadsAs(fmt, c, SpecDirective(flags, ws, ps), args)
  {
    SpecIsDirective(fmt, flags, ws, ps, c);
    DirectiveReads(fmt, 0, 1 + |flags|, 1 + |flags| + |ws|, |fmt| - 1, args, 0);
  }

  // The format is the one directive d with conversion c.
  predicate ReadsAs(fmt: string, c: char, d: Directive, args: nat -> Arg) {
    && 1 < |fmt| && fmt[0] == '%' && fmt[|fmt| - 1] == c
    && d.at == |fmt| - 1 && d.arg == 0 && ReadDirective(fmt, 1, args, 0) == d
  }

  /** Such a format prints what its conversion makes of the first argument. */
  lemma Prints(fmt: string, c: char, d: Directive, args: nat -> Arg)
    requires ReadsAs(fmt, c, d, args)
    ensures Formatted(fmt, args) == Piece(c, d, args(0))
  {
    LastDirective(fmt, 0, d, args, 0);
  }

  lemma SpecPrints(flags: string, ws: string, ps: string, c: char, args: nat -> Arg)
    requires All(flags, IsFlag) && IsWidth(ws) && IsPrecision(ps) && IsConversion(c)
    ensures Formatted(Spec(flags, ws, ps, c), args) == Piece(c, SpecDirective(flags, ws, ps), args(0))
  {
    SpecIs(flags, ws, ps, c);
    SpecReads(Spec(flags, ws, ps, c), flags, ws, ps, c, args);
    Prints(Spec(flags, ws, ps, c), c, SpecDirective(flags, ws, ps), args);
  }

  lemma LastDirective(fmt: string, i: nat, d: Directive, args: nat -> Arg, k: nat)
    requires i < |fmt| && fmt[i] == '%' && d == ReadDirective(fmt, i + 1, args, k) && d.at == |fmt| - 1
    ensures Text(StepsOf(fmt, args), |fmt|, i, k) == Piece(fmt[d.at], d, args(d.arg))
  {
    StepIs(fmt, i, d, args, k);
    OnlyStep(StepsOf(fmt, args), |fmt|, i, k);
  }

  lemma StepIs(fmt: string, i: nat, d: Directive, args: nat -> Arg, k: nat)
    requires i < |fmt| && fmt[i] == '%' && d == ReadDirective(fmt, i + 1, args, k) && d.at < |fmt|
    ensures var c := fmt[d.at];
      OneStep(fmt, i, args, k) ==
      Step(Piece(c, d, args(d.arg)), d.at + 1, if TakesArgument(c) then d.arg + 1 else d.arg,
           if c == 'n' then Some(args(d.arg).word) else None)
  {
  }

  lemma OnlyStep(steps: Steps, len: nat, i: nat, k: nat)
    requires i < steps(i, k).next == len
    ensures Text(steps, len, i, k) == steps(i, k).text
  {
    assert Text(steps, len, len, steps(i, k).arg) == "";
  }

  lemma {:induction false} FlagsAre(s: string)
    ensures AddFlags(NO_FLAGS, s) == Flags('0' in s, false, '+' in s, ' ' in s, '-' in s, '#' in s, false)
  {
    if s != "" {
      FlagsAre(s[..|s| - 1]);
      assert s == s[..|s| - 1] + [s[|s| - 1]];
    }
  }

  // The conversions of numbers: the base, whether the number is signed, and whether in small letters.
  predicate Converts(c: char, base: nat, sign: bool, small: bool) {
    || ((c == 'd' || c == 'i') && base == 10 && sign && !small)
    || (c == 'u' && base == 10 && !sign && !small)
    || (c == 'o' && base == 8 && !sign && !small)
    || (c == 'x' && base == 16 && !sign && small)
    || (c == 'X' && base == 16 && !sign && !small)
  }

  lemma NumberPiece(c: char, base: nat, sign: bool, small: bool, d: Directive, a: Arg)
    requires Converts(c, base, sign, small) && !d.flags.sign && !d.flags.small
    ensures Piece(c, d, a) == NumberText(a.word, base, d.width, d.precision, d.flags.(sign := sign, small := small))
  {
  }

  /** A directive for a number, in its characters: which bases and letters the conversions have, and
      which flag each character sets. */
  lemma NumberDirective(flags: string, ws: string, ps: string, c: char, base: nat, sign: bool, small: bool,
                        args: nat -> Arg)
    requires All(flags, IsFlag) && IsWidth(ws) && IsPrecision(ps) && Converts(c, base, sign, small)
    ensures Formatted(Spec(flags, ws, ps, c), args) ==
            NumberText(args(0).word, base, NumberIn(ws), PrecisionIn(ps),
                       Flags('0' in flags, sign, '+' in flags, ' ' in flags, '-' in flags, '#' in flags, small))
  {
    FlagsAre(flags);
    SpecPrints(flags, ws, ps, c, args);
    NumberPiece(c, base, sign, small, SpecDirective(flags, ws, ps), args(0));
  }

  lemma BareNumber(c: char, base: nat, sign: bool, small: bool, args: nat -> Arg)
    requires Converts(c, base, sign, small)
    ensures Formatted(['%', c], args) == Shortest(args(0).word, base, sign, small)
  {
    assert Spec("", "", "", c) == ['%', c];
    NumberDirective("", "", "", c, base, sign, small, args);
    ShortestText(args(0).word, base, NO_FLAGS.(sign := sign, small := small));
  }

  /** What the conversions of numbers print. */
  lemma IntegerDirectives(args: nat -> Arg)
    ensures Formatted("%d", args) == Formatted("%i", args)
    ensures var w := args(0).word;
      Formatted("%d", args) ==
      if w < 0x8000_0000 then DigitsOf(w, 10, false) else "-" + DigitsOf(0x1_0000_0000 - w, 10, false)
    ensures Formatted("%u", args) == DigitsOf(args(0).word, 10, false)
    ensures Formatted("%o", args) == DigitsOf(args(0).word, 8, false)
    ensures Formatted("%x", args) == DigitsOf(args(0).word, 16, true)
    ensures Formatted("%X", args) == DigitsOf(args(0).word, 16, false)
  {
    BareNumber('d', 10, true, false, args);
    BareNumber('i', 10, true, false, args);
    BareNumber('u', 10, false, false, args);
    BareNumber('o', 8, false, false, args);
    BareNumber('x', 16, false, true, args);
    BareNumber('X', 16, false, false, args);
  }

  lemma MarkedDirective(flag: char, c: char, base: nat, sign: bool, small: bool, args: nat -> Arg)
    requires IsFlag(flag) && Converts(c, base, sign, small)
    ensures Formatted(['%', flag, c], args) ==
            NumberText(args(0).word, base, -1, -1,
                       Flags(flag == '0', sign, flag == '+', flag == ' ', flag == '-', flag == '#', small))
  {
    assert Spec([flag], "", "", c) == ['%', flag, c];
    NumberDirective([flag], "", "", c, base, sign, small, args);
  }

  /** A sign for numbers that are not negative. */
  lemma SignDirectives(args: nat -> Arg)
    ensures Formatted("%+d", args) == SignedWith("+", args(0).word)
    ensures Formatted("% d", args) == SignedWith(" ", args(0).word)
  {
    MarkedDirective('+', 'd', 10, true, false, args);
    MarkedDirective(' ', 'd', 10, true, false, args);
    SignedText(args(0).word);
  }

  /** A prefix that tells the base. */
  lemma PrefixDirectives(args: nat -> Arg)
    ensures Formatted("%#o", args) == "0" + DigitsOf(args(0).word, 8, false)
    ensures Formatted("%#x", args) == "0x" + DigitsOf(args(0).word, 16, true)
    ensures Formatted("%#X", args) == "0X" + DigitsOf(args(0).word, 16, false)
  {
    MarkedDirective('#', 'o', 8, false, false, args);
    MarkedDirective('#', 'x', 16, false, true, args);
    MarkedDirective('#', 'X', 16, false, false, args);
    PrefixedText(args(0).word);
  }

  // A width that stands in a format, and its number.
  predicate Width(ws: string, n: nat) {
    0 < |ws| && All(ws, IsDigit) && ws[0] != '0' && Numeral(ws, 10) && Value(ws, 10) == n < 0x8000_0000
  }

  lemma FieldDirective(flags: string, ws: string, n: nat, c: char, base: nat, sign: bool, small: bool, f: Flags,
                       args: nat -> Arg)
    requires Width(ws, n) && Converts(c, base, sign, small) && All(flags, IsFlag) && f == AddFlags(NO_FLAGS, flags)
    ensures Formatted(Spec(flags, ws, "", c), args) ==
            NumberText(args(0).word, base, n, -1, f.(sign := sign, small := small))
  {
    FlagsAre(flags);
    NumberDirective(flags, ws, "", c, base, sign, small, args);
    WidthIs(ws, n);
  }

  lemma OneOfTheFlags()
    ensures AddFlags(NO_FLAGS, "") == NO_FLAGS && AddFlags(NO_FLAGS, "-") == NO_FLAGS.(left := true)
    ensures AddFlags(NO_FLAGS, "0") == NO_FLAGS.(zeroPad := true)
  {
    FlagsAre("-");
    FlagsAre("0");
  }

  lemma WidthIs(ws: string, n: nat)
    requires Width(ws, n)
    ensures NumberIn(ws) == n && IsWidth(ws)
  {
  }

  lemma WidthFormats(ws: string, c: char)
    ensures Spec("", ws, "", c) == "%" + ws + [c] && Spec("-", ws, "", c) == "%-" + ws + [c]
    ensures Spec("0", ws, "", c) == "%0" + ws + [c]
  {
  }

  /** A width, as a number in front of the conversion, puts blanks before the text. */
  lemma WidthDirective(fmt: string, ws: string, n: nat, c: char, base: nat, sign: bool, small: bool, args: nat -> Arg)
    requires fmt == "%" + ws + [c] && Width(ws, n) && Converts(c, base, sign, small)
    ensures Formatted(fmt, args) == Indented(Shortest(args(0).word, base, sign, small), n)
  {
    WidthFormats(ws, c);
    OneOfTheFlags();
    FieldDirective("", ws, n, c, base, sign, small, NO_FLAGS, args);
    RightShortest(args(0).word, base, n, NO_FLAGS.(sign := sign, small := small));
  }

  /** Behind a "-" it puts them behind the text. */
  lemma LeftDirective(fmt: string, ws: string, n: nat, c: char, base: nat, sign: bool, small: bool, args: nat -> Arg)
    requires fmt == "%-" + ws + [c] && Width(ws, n) && Converts(c, base, sign, small)
    ensures Formatted(fmt, args) == Extended(Shortest(args(0).word, base, sign, small), n)
  {
    WidthFormats(ws, c);
    OneOfTheFlags();
    FieldDirective("-", ws, n, c, base, sign, small, NO_FLAGS.(left := true), args);
    LeftShortest(args(0).word, base, n, NO_FLAGS.(sign := sign, small := small));
  }

  /** Behind a "0" it puts zeros before the digits; a minus sign takes up one of the places. */
  lemma ZeroDirective(fmt: string, ws: string, n: nat, c: char, base: nat, sign: bool, small: bool, args: nat -> Arg)
    requires fmt == "%0" + ws + [c] && Width(ws, n) && Converts(c, base, sign, small)
    ensures var w := args(0).word;
      Formatted(fmt, args) == Precise(w, base, if sign && 0x8000_0000 <= w then n - 1 else n, sign, small)
  {
    WidthFormats(ws, c);
    OneOfTheFlags();
    FieldDirective("0", ws, n, c, base, sign, small, NO_FLAGS.(zeroPad := true), args);
    ZeroFilled(args(0).word, base, n, NO_FLAGS.(sign := sign, small := small));
  }

  lemma PrecisionIs(ws: string, n: nat)
    requires Width(ws, n)
    ensures PrecisionIn("." + ws) == n && IsPrecision("." + ws)
  {
    assert ("." + ws)[1..] == ws;
  }

  lemma PrecisionFormat(ws: string, c: char)
    ensures Spec("", "", "." + ws, c) == "%." + ws + [c]
  {
  }

  /** A number behind a point fills up the digits with zeros. */
  lemma PrecisionDirective(ws: string, n: nat, c: char, base: nat, sign: bool, small: bool, args: nat -> Arg)
    requires Width(ws, n) && Converts(c, base, sign, small)
    ensures Formatted("%." + ws + [c], args) == Precise(args(0).word, base, n, sign, small)
  {
    PrecisionIs(ws, n);
    PrecisionFormat(ws, c);
    NumberDirective("", "", "." + ws, c, base, sign, small, args);
    PreciseIs(args(0).word, base, n, NO_FLAGS.(sign := sign, small := small));
  }

  // Flags, width and precision are left out.
  predicate IsBare(d: Directive) { d.flags == NO_FLAGS && d.width == -1 && d.precision == -1 }

  lemma Bare(c: char, args: nat -> Arg) returns (d: Directive)
    requires IsConversion(c)
    ensures IsBare(d)
    ensures Formatted(['%', c], args) == Piece(c, d, args(0))
  {
    d := SpecDirective("", "", "");
    SpecPrints("", "", "", c, args);
    assert Spec("", "", "", c) == ['%', c];
  }

  lemma PointerPiece(d: Directive, a: Arg)
    requires IsBare(d)
    ensures Piece('p', d, a) == Precise(a.word, 16, 8, false, false)
  {
    assert Piece('p', d, a) == NumberText(a.word, 16, 8, -1, NO_FLAGS.(zeroPad := true));
    ZeroFilled(a.word, 16, 8, NO_FLAGS);
  }

  /** An address is printed with eight hexadecimal digits. */
  lemma PointerDirective(args: nat -> Arg)
    ensures Formatted("%p", args) == Precise(args(0).word, 16, 8, false, false)
  {
    var d := Bare('p', args);
    PointerPiece(d, args(0));
  }

  lemma TextPiece(d: Directive, a: Arg)
    ensures Piece('s', d, a) == Padded(Shortened(a.text, d.precision), d.width, d.flags.left)
    ensures Piece('c', d, a) == Padded([(a.word % 256) as char], d.width, d.flags.left)
    ensures Piece('%', d, a) == "%" && Piece('n', d, a) == ""
  {
  }

  /** A character, a string, and a % sign. */
  lemma TextDirectives(args: nat -> Arg)
    ensures Formatted("%c", args) == [(args(0).word % 256) as char] && Formatted("%s", args) == args(0).text
    ensures Formatted("%%", args) == "%"
  {
    var c := Bare('c', args);
    var s := Bare('s', args);
    var p := Bare('%', args);
    TextPiece(c, args(0));
    TextPiece(s, args(0));
    TextPiece(p, args(0));
    assert Padded(args(0).text, -1, false) == args(0).text;
  }

  /** A string in a field, and cut to a number behind a point. */
  lemma StringDirectives(ws: string, n: nat, args: nat -> Arg)
    requires Width(ws, n)
    ensures var t := args(0).text;
      && Formatted("%" + ws + "s", args) == Indented(t, n) && Formatted("%-" + ws + "s", args) == Extended(t, n)
      && Formatted("%." + ws + "s", args) == if n < |t| then t[..n] else t
  {
    WidthFormats(ws, 's');
    PrecisionFormat(ws, 's');
    WidthIs(ws, n);
    PrecisionIs(ws, n);
    SpecPrints("", ws, "", 's', args);
    SpecPrints("-", ws, "", 's', args);
    SpecPrints("", "", "." + ws, 's', args);
    TextPiece(SpecDirective("", ws, ""), args(0));
    TextPiece(SpecDirective("-", ws, ""), args(0));
    TextPiece(SpecDirective("", "", "." + ws), args(0));
  }

  lemma TakesArgumentIff(c: char)
    ensures TakesArgument(c) <==>
            || c == 'd' || c == 'i' || c == 'u' || c == 'o' || c == 'x' || c == 'X' || c == 'p'
            || c == 'c' || c == 's' || c == 'n'
  {
  }

  /** The conversion takes the next argument, if it is one of these letters; %n stores at its
      address. */
  lemma ArgumentsTaken(fmt: string, i: nat, j1: nat, j2: nat, j3: nat, args: nat -> Arg, k: nat)
    requires DirectiveAt(fmt, i, j1, j2, j3)
    ensures var c, s := fmt[j3], OneStep(fmt, i, args, k);
      && s.next == j3 + 1 && s.arg == (if TakesArgument(c) then k + 1 else k)
      && s.store == (if c == 'n' then Some(args(k).word) else None)
  {
    DirectiveReads(fmt, i, j1, j2, j3, args, k);
    StepIs(fmt, i, ReadDirective(fmt, i + 1, args, k), args, k);
  }

  lemma {:induction false} PlainRun(steps: Steps, fmt: string, i: nat, j: nat, k: nat)
    requires i <= j <= |fmt| && forall m: nat | i <= m < j :: steps(m, k) == Step([fmt[m]], m + 1, k, None)
    ensures Text(steps, |fmt|, i, k) == fmt[i..j] + Text(steps, |fmt|, j, k)
    decreases j - i
  {
    if i < j {
      assert fmt[i..j] == [fmt[i]] + fmt[i + 1..j];
      PlainRun(steps, fmt, i + 1, j, k);
    }
  }

  lemma {:induction false} PlainCount(steps: Steps, fmt: string, i: nat, j: nat, k: nat, n: nat,
                                      log: seq<(u32, nat)>)
    requires i <= j <= |fmt| && forall m: nat | i <= m < j :: steps(m, k) == Step([fmt[m]], m + 1, k, None)
    ensures Stores(steps, |fmt|, i, k, n, log) == Stores(steps, |fmt|, j, k, n + j - i, log)
    decreases j - i
  {
    if i < j {
      assert log + Stored(None, n) == log;
      PlainCount(steps, fmt, i + 1, j, k, n + 1, log);
    }
  }

  lemma TextBefore(fmt: string, j: nat, args: nat -> Arg, k: nat)
    requires j <= |fmt| && '%' !in fmt[..j]
    ensures Text(StepsOf(fmt, args), |fmt|, 0, k) == fmt[..j] + Text(StepsOf(fmt, args), |fmt|, j, k)
  {
    forall m: nat | m < j ensures StepsOf(fmt, args)(m, k) == Step([fmt[m]], m + 1, k, None) {
      assert fmt[m] == fmt[..j][m];
    }
    PlainRun(StepsOf(fmt, args), fmt, 0, j, k);
    assert fmt[0..j] == fmt[..j];
  }

  /** The text around a directive is copied. */
  lemma TextAround(fmt: string, i: nat, j: nat, args: nat -> Arg)
    requires i < j <= |fmt| && '%' !in fmt[..i] && '%' !in fmt[j..] && OneStep(fmt, i, args, 0).next == j
    ensures Formatted(fmt, args) == fmt[..i] + OneStep(fmt, i, args, 0).text + fmt[j..]
  {
    var steps, s := StepsOf(fmt, args), OneStep(fmt, i, args, 0);
    TextBefore(fmt, i, args, 0);
    PlainRest(fmt, j, args, s.arg, 0, []);
    TextGoesOn(steps, |fmt|, i, 0, fmt[..i]);
  }

  lemma CountAround(fmt: string, i: nat, args: nat -> Arg, s: Step)
    requires i < s.next <= |fmt| && '%' !in fmt[..i] && '%' !in fmt[s.next..] && StepsOf(fmt, args)(i, 0) == s
    ensures Counted(fmt, args) == Stored(s.store, i)
  {
    CountBefore(fmt, i, args, 0);
    PlainRest(fmt, s.next, args, s.arg, i + |s.text|, Stored(s.store, i));
    StoresOnce(StepsOf(fmt, args), |fmt|, i, s);
  }

  lemma CountBefore(fmt: string, j: nat, args: nat -> Arg, k: nat)
    requires j <= |fmt| && '%' !in fmt[..j]
    ensures Stores(StepsOf(fmt, args), |fmt|, 0, k, 0, []) == Stores(StepsOf(fmt, args), |fmt|, j, k, j, [])
  {
    forall m: nat | m < j ensures StepsOf(fmt, args)(m, k) == Step([fmt[m]], m + 1, k, None) {
      assert fmt[m] == fmt[..j][m];
    }
    PlainCount(StepsOf(fmt, args), fmt, 0, j, k, 0, []);
  }

  lemma StoresOnce(steps: Steps, len: nat, i: nat, s: Step)
    requires steps(i, 0) == s && i < s.next <= len
    requires Stores(steps, len, s.next, s.arg, i + |s.text|, Stored(s.store, i)) == Stored(s.store, i)
    ensures Stores(steps, len, i, 0, i, []) == Stored(s.store, i)
  {
    assert [] + Stored(s.store, i) == Stored(s.store, i);
  }

  lemma BarePiece(c: char, base: nat, sign: bool, small: bool, d: Directive, a: Arg)
    requires Converts(c, base, sign, small) && IsBare(d)
    ensures Piece(c, d, a) == Shortest(a.word, base, sign, small)
  {
    NumberPiece(c, base, sign, small, d, a);
    ShortestText(a.word, base, NO_FLAGS.(sign := sign, small := small));
  }

  lemma BareStep(fmt: string, i: nat, args: nat -> Arg, k: nat) returns (d: Directive)
    requires i + 1 < |fmt| && fmt[i] == '%' && IsConversion(fmt[i + 1])
    ensures IsBare(d)
    ensures var c, s := fmt[i + 1], OneStep(fmt, i, args, k);
      && s.text == Piece(c, d, args(k)) && s.next == i + 2
      && s.store == if c == 'n' then Some(args(k).word) else None
  {
    d := ReadDirective(fmt, i + 1, args, k);
    assert fmt[i + 1..i + 1] == "";
    DirectiveReads(fmt, i, i + 1, i + 1, i + 1, args, k);
    StepIs(fmt, i, d, args, k);
  }

  /** A number in the middle of a text. */
  lemma NumberAround(before: string, c: char, after: string, base: nat, sign: bool, small: bool, args: nat -> Arg)
    requires '%' !in before && '%' !in after && Converts(c, base, sign, small)
    ensures Formatted(before + ['%', c] + after, args) == before + Shortest(args(0).word, base, sign, small) + after
  {
    var fmt, i := before + ['%', c] + after, |before|;
    assert fmt[..i] == before && fmt[i] == '%' && fmt[i + 1] == c && fmt[i + 2..] == after;
    var d := BareStep(fmt, i, args, 0);
    BarePiece(c, base, sign, small, d, args(0));
    TextAround(fmt, i, i + 2, args);
  }

  /** %n prints nothing and stores the number of characters before it. */
  lemma CountDirective(before: string, after: string, args: nat -> Arg)
    requires '%' !in before && '%' !in after
    ensures Formatted(before + "%n" + after, args) == before + after
    ensures Counted(before + "%n" + after, args) == [(args(0).word, |before|)]
  {
    var fmt, i := before + "%n" + after, |before|;
    assert fmt[..i] == before && fmt[i] == '%' && fmt[i + 1] == 'n' && fmt[i + 2..] == after;
    var d := BareStep(fmt, i, args, 0);
    TextPiece(d, args(0));
    TextAround(fmt, i, i + 2, args);
    CountAround(fmt, i, args, OneStep(fmt, i, args, 0));
    assert before + "" + after == before + after;
  }

  /** A length letter before the conversion changes nothing. */
  lemma LengthDirective(m: char, c: char, base: nat, sign: bool, small: bool, args: nat -> Arg)
    requires (m == 'h' || m == 'l' || m == 'L') && Converts(c, base, sign, small)
    ensures Formatted(['%', m, c], args) == Shortest(args(0).word, base, sign, small)
  {
    var fmt := ['%', m, c];
    var d := Directive(NO_FLAGS, -1, -1, 2, 0);
    LengthIsPassedOver(fmt, args);
    LastDirective(fmt, 0, d, args, 0);
    BarePiece(c, base, sign, small, d, args(0));
  }

  lemma LengthIsPassedOver(fmt: string, args: nat -> Arg)
    requires |fmt| == 3 && (fmt[1] == 'h' || fmt[1] == 'l' || fmt[1] == 'L')
    ensures ReadDirective(fmt, 1, args, 0) == Directive(NO_FLAGS, -1, -1, 2, 0)
  {
    assert fmt[1..1] == "";
  }

  /** The "0x%x" by which integer variables are displayed. */
  lemma HexDirective(args: nat -> Arg)
    ensures Formatted("0x%x", args) == "0x" + DigitsOf(args(0).word, 16, true)
  {
    assert "0x" + "%x" + "" == "0x%x";
    NumberAround("0x", 'x', "", 16, false, true, args);
  }

  /** A * takes its argument but is not skipped: it is met again as the conversion, which
      prints "%*". So neither a width nor a precision from an argument is ever honoured. */
  lemma StarIsNotSkipped(fmt: string, i: nat, args: nat -> Arg, k: nat)
    requires i < |fmt| && fmt[i] == '%'
    requires var j := RunEnd(fmt, i + 1, IsFlag); At(fmt, j) == '*'
    ensures var s := OneStep(fmt, i, args, k);
      s.text == "%*" && s.next == RunEnd(fmt, i + 1, IsFlag) + 1 && s.arg == k + 1 && s.store.None?
  {
  }

  lemma PrecisionStarIsNotSkipped(fmt: string, i: nat, args: nat -> Arg, k: nat)
    requires i < |fmt| && fmt[i] == '%'
    requires PointAt(fmt, i) < |fmt| && fmt[PointAt(fmt, i)] == '.' && At(fmt, PointAt(fmt, i) + 1) == '*'
    ensures var s := OneStep(fmt, i, args, k);
      s.text == "%*" && s.next == PointAt(fmt, i) + 2 && s.arg == k + 1 && s.store.None?
  {
    var j := RunEnd(fmt, i + 1, IsFlag);
    var d := WithWidth(fmt, Directive(AddFlags(NO_FLAGS, fmt[i + 1..j]), -1, -1, j, k), args);
    assert d.at == PointAt(fmt, i) && d.arg == k;
    assert WithPrecision(fmt, d, args).at == d.at + 1;
  }

  // Behind the flags and the width in digits of the directive at i.
  function PointAt(fmt: string, i: nat): (p: nat)
    requires i < |fmt|
    ensures i < p <= |fmt|
  {
    RunEnd(fmt, RunEnd(fmt, i + 1, IsFlag), IsDigit)
  }

  /** A format cut off inside a directive prints the % alone and stops at the NUL. */
  lemma CutOffDirective(fmt: string, i: nat, args: nat -> Arg, k: nat)
    requires i < |fmt| && fmt[i] == '%' && ReadDirective(fmt, i + 1, args, k).at == |fmt|
    ensures Text(StepsOf(fmt, args), |fmt|, i, k) == "%"
  {
  }

  // ---- The program ----

  // From the flags to the length letter.
  method ScanDirective(fmt: string, start: nat, args: nat -> Arg, k: nat) returns (d: Directive)
    requires start <= |fmt|
    ensures d == ReadDirective(fmt, start, args, k)
  {
    var i, flags := start, NO_FLAGS;
    while IsFlag(At(fmt, i))
      invariant start <= i <= |fmt| && RunEnd(fmt, start, IsFlag) == RunEnd(fmt, i, IsFlag)
      invariant flags == AddFlags(NO_FLAGS, fmt[start..i])
      decreases |fmt| - i
    {
      OneFlag(fmt, start, i);
      flags := AddFlag(flags, fmt[i]);
      i := i + 1;
    }
    d := Directive(flags, -1, -1, i, k);
    d := ScanWidth(fmt, d, args);
    d := ScanPrecision(fmt, d, args);
    if At(fmt, d.at) == 'h' || At(fmt, d.at) == 'l' || At(fmt, d.at) == 'L' {
      d := d.(at := d.at + 1);
    }
  }

  method ScanWidth(fmt: string, d0: Directive, args: nat -> Arg) returns (d: Directive)
    requires d0.at <= |fmt|
    ensures d == WithWidth(fmt, d0, args)
  {
    d := d0;
    if IsDigit(At(fmt, d.at)) {
      var width, i := SkipAtoi(fmt, d.at);
      d := d.(width := width, at := i);
    } else if At(fmt, d.at) == '*' {
      d := d.(width := Signed(args(d.arg).word), arg := d.arg + 1);
      if d.width < 0 {
        d := d.(width := Negated(d.width), flags := d.flags.(left := true));
      }
    }
  }

  method ScanPrecision(fmt: string, d0: Directive, args: nat -> Arg) returns (d: Directive)
    requires d0.at <= |fmt|
    ensures d == WithPrecision(fmt, d0, args)
  {
    d := d0;
    if At(fmt, d.at) == '.' {
      var i, precision := d.at + 1, -1;
      if IsDigit(At(fmt, i)) {
        precision, i := SkipAtoi(fmt, i);
      } else if At(fmt, i) == '*' {
        precision := Signed(args(d.arg).word);
        d := d.(arg := d.arg + 1);
      }
      d := d.(precision := if precision < 0 then 0 else precision, at := i);
    }
  }

  // Case 'c'.
  method PutChar(out: Output, d: Directive, c: char)
    requires out.Valid() && out.pos + |Padded([c], d.width, d.flags.left)| <= out.buf.Length
    modifies out`pos, out.buf
    ensures out.Valid() && out.Text() == old(out.Text()) + Padded([c], d.width, d.flags.left)
  {
    ghost var t, fill := out.Text(), Max(0, d.width - 1);
    NoPadding(t);
    NoPadding(t + [c]);
    AppendAssoc(t, [c], Repeat(' ', fill));
    AppendAssoc(t, Repeat(' ', fill), [c]);
    var width := d.width;
    if !d.flags.left {
      width := out.PutWhile(width - 1, ' ');
      width := width + 1;
    }
    out.Put(c);
    width := out.PutWhile(width - 1, ' ');
  }

  // Case 's'.
  method PutString(out: Output, d: Directive, text: string)
    requires out.Valid() && out.pos + |Padded(Shortened(text, d.precision), d.width, d.flags.left)| <= out.buf.Length
    modifies out`pos, out.buf
    ensures out.Valid() && out.Text() == old(out.Text()) + Padded(Shortened(text, d.precision), d.width, d.flags.left)
  {
    var len := if 0 <= d.precision < |text| then d.precision else |text|;
    ghost var t, s, fill := out.Text(), Shortened(text, d.precision), Max(0, d.width - len);
    assert text[..len] == s;
    NoPadding(t);
    NoPadding(t + s);
    AppendAssoc(t, s, Repeat(' ', fill));
    AppendAssoc(t, Repeat(' ', fill), s);
    var width := d.width;
    if !d.flags.left {
      width := out.PutWhile(width - len, ' ');
      width := width + len;
    }
    out.PutAll(text[..len]);
    width := out.PutWhile(width - len, ' ');
  }

  // The switch over the conversion.
  method PutPiece(out: Output, c: char, d: Directive, a: Arg)
    requires out.Valid() && out.pos + |Piece(c, d, a)| <= out.buf.Length
    modifies out`pos, out.buf
    ensures out.Valid() && out.Text() == old(out.Text()) + Piece(c, d, a)
  {
    match c
    case 'c' => PutChar(out, d, (a.word % 256) as char);
    case 's' => PutString(out, d, a.text);
    case 'o' => var _ := Number(out, a.word, 8, d.width, d.precision, d.flags);
    case 'p' =>
      var width, flags := d.width, d.flags;
      if width == -1 {
        width := 8;
        flags := flags.(zeroPad := true);
      }
      var _ := Number(out, a.word, 16, width, d.precision, flags);
    case 'x' => var _ := Number(out, a.word, 16, d.width, d.precision, d.flags.(small := true));
    case 'X' => var _ := Number(out, a.word, 16, d.width, d.precision, d.flags);
    case 'd' => var _ := Number(out, a.word, 10, d.width, d.precision, d.flags.(sign := true));
    case 'i' => var _ := Number(out, a.word, 10, d.width, d.precision, d.flags.(sign := true));
    case 'u' => var _ := Number(out, a.word, 10, d.width, d.precision, d.flags);
    case 'n' =>
    case _ =>
      if c != '%' { out.Put('%'); }
      if c != '\0' { out.Put(c); }
  }

  // One turn of the loop.
  method Turn(out: Output, fmt: string, i: nat, args: nat -> Arg, k: nat, ghost s: Step)
    returns (next: nat, arg: nat, store: Option<u32>)
    requires IsCString(fmt) && i < |fmt| && s == OneStep(fmt, i, args, k)
    requires out.Valid() && out.pos + |s.text| <= out.buf.Length
    modifies out`pos, out.buf
    ensures next == s.next && arg == s.arg && store == s.store
    ensures out.Valid() && out.Text() == old(out.Text()) + s.text && out.pos == old(out.pos) + |s.text|
  {
    if fmt[i] != '%' {
      out.Put(fmt[i]);
      return i + 1, k, None;
    }
    var d := ScanDirective(fmt, i + 1, args, k);
    var c := At(fmt, d.at);
    PutPiece(out, c, d, args(d.arg));
    next := if c == '\0' then d.at else d.at + 1;
    arg := if TakesArgument(c) then d.arg + 1 else d.arg;
    store := if c == 'n' then Some(args(d.arg).word) else None;
  }

  ghost predicate AreSteps(steps: Steps, fmt: string, args: nat -> Arg) {
    forall i: nat, k: nat | i < |fmt| :: steps(i, k) == OneStep(fmt, i, args, k)
  }

  lemma TextGoesOn(steps: Steps, len: nat, i: nat, k: nat, t: string)
    requires i < steps(i, k).next <= len
    ensures var s := steps(i, k); t + Text(steps, len, i, k) == t + s.text + Text(steps, len, s.next, s.arg)
  {
  }

  // The loop; steps is the description of the format.
  method Loop(out: Output, fmt: string, args: nat -> Arg, ghost steps: Steps) returns (stores: seq<(u32, nat)>)
    requires IsCString(fmt) && AreSteps(steps, fmt, args)
    requires out.Valid() && out.pos == 0 && |Text(steps, |fmt|, 0, 0)| <= out.buf.Length
    modifies out`pos, out.buf
    ensures out.Valid() && out.Text() == Text(steps, |fmt|, 0, 0) && stores == Stores(steps, |fmt|, 0, 0, 0, [])
  {
    var i, k: nat := 0, 0;
    stores := [];
    while At(fmt, i) != '\0'
      invariant i <= |fmt| && out.Valid() && out.Text() + Text(steps, |fmt|, i, k) == Text(steps, |fmt|, 0, 0)
      invariant Stores(steps, |fmt|, i, k, out.pos, stores) == Stores(steps, |fmt|, 0, 0, 0, [])
      decreases |fmt| - i
    {
      TextGoesOn(steps, |fmt|, i, k, out.Text());
      var n := out.pos;
      var next, arg, store := Turn(out, fmt, i, args, k, steps(i, k));
      stores := stores + Stored(store, n);
      i, k := next, arg;
    }
  }

  /** kvsprintf(): the text the format stands for, a NUL behind it, and its length. It stops on
      every format, and reads none behind its NUL. */
  method Kvsprintf(out: Output, fmt: string, args: nat -> Arg) returns (n: nat, stores: seq<(u32, nat)>)
    requires IsCString(fmt) && out.pos == 0 && |Formatted(fmt, args)| < out.buf.Length
    modifies out`pos, out.buf
    ensures out.Valid() && out.Text() == Formatted(fmt, args) && n == |out.Text()| == out.pos && out.buf[n] == '\0'
    ensures stores == Counted(fmt, args)
  {
    stores := Loop(out, fmt, args, StepsOf(fmt, args));
    out.buf[out.pos] := '\0';
    n := out.pos;
  }
}
