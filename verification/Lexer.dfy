/** sh/lexer.c on values: which token starts where on a line. */
module LexModel {
  import opened Words
  import opened Strings
  import opened Numerals
  import opened Tokens

  predicate IsSpace(c: char) { c == ' ' }
  predicate IsAlpha(c: char) { 'a' <= c <= 'z' || 'A' <= c <= 'Z' || c == '_' }
  predicate IsHex(c: char) { IsDigit(c) || 'a' <= c <= 'f' || 'A' <= c <= 'F' }
  predicate IsAlnum(c: char) { IsAlpha(c) || IsDigit(c) }
  predicate IsSigil(c: char) { c == '$' || c == '%' || c == '.' }
  predicate IsX(c: char) { c == 'x' || c == 'X' }

  // A token and where the scan goes on, or a scan that never meets its closing character.
  datatype Scan = Scan(token: Token, next: nat) | RunsOff

  predicate HexPrefix(s: string, b: nat)
    requires b <= |s|
  {
    At(s, b) == '0' && IsX(At(s, b + 1))
  }

  function IntScan(s: string, b: nat): (r: Scan)
    requires b < |s|
    ensures r.Scan? && b < r.next <= |s| && (r.token.Error? || r.token.LUInteger?)
  {
    if HexPrefix(s, b) then
      if !IsHex(At(s, b + 2)) then Scan(Error(WrongNum), b + 2)
      else var e := RunEnd(s, b + 3, IsHex); Scan(IntToken(16, s[b + 2..e]), e)
    else
      var e := RunEnd(s, b + 1, IsHex); Scan(IntToken(if s[b] == '0' then 8 else 10, s[b..e]), e)
  }

  function LexAt(s: string, b: nat): (r: Scan)
    requires b <= |s|
    ensures r.Scan? ==> b <= r.next <= |s| && (r.token.Eoi? <==> At(s, b) == '\0') && !r.token.Void?
  {
    var c := At(s, b);
    if c == '\0' then Scan(Eoi, b)
    else if IsSigil(c) then var e := RunEnd(s, b + 1, IsAlnum); Scan(Capped(Variable(s[b..e]), s[b..e]), e)
    else if c == '!' then
      match Seek(s, b + 1, '!')
      case Some(e) => Scan(Capped(LString(s[b + 1..e]), s[b + 1..e]), e + 1)
      case None => RunsOff
    else if IsAlpha(c) then var e := RunEnd(s, b + 1, IsAlnum); Scan(Capped(Identifier(s[b..e]), s[b..e]), e)
    else if IsDigit(c) then IntScan(s, b)
    else
      match Seek(s, b + 1, ' ')
      case Some(e) => Scan(Unknown, e)
      case None => RunsOff
  }

  // What lexer_process delivers from position i.
  function Lex(s: string, i: nat): (r: Scan)
    requires i <= |s|
    ensures r.Scan? ==> i <= r.next <= |s| && !r.token.Void?
  {
    LexAt(s, RunEnd(s, i, IsSpace))
  }

  // What starts at b is never closed: a string without a second '!', or an unknown word without a
  // space behind it.
  predicate Unclosed(s: string, b: nat)
    requires b <= |s|
  {
    && b < |s| && s[b] != '\0'
    && if s[b] == '!' then '!' !in s[b + 1..]
       else !IsSigil(s[b]) && !IsAlpha(s[b]) && !IsDigit(s[b]) && ' ' !in s[b + 1..]
  }

  /** The scan runs past the end of the line if and only if what starts behind the spaces is
      never closed. */
  lemma RunsOffIff(s: string, i: nat)
    requires i <= |s|
    ensures Lex(s, i).RunsOff? <==> Unclosed(s, RunEnd(s, i, IsSpace))
  {
  }

  // ---- The language of the scanner, without its procedure ----

  predicate Decimal(w: string, n: nat) {
    0 < |w| <= 9 && w[0] != '0' && Numeral(w, 10) && Value(w, 10) == n
  }

  predicate Octal(w: string, n: nat) {
    0 < |w| <= 11 && w[0] == '0' && Numeral(w, 8) && Value(w, 8) == n
  }

  predicate Hexadecimal(w: string, n: nat) {
    2 < |w| <= 10 && w[0] == '0' && IsX(w[1]) && Numeral(w[2..], 16) && Value(w[2..], 16) == n
  }

  /** The lexeme w stands for the token t. */
  predicate Spells(w: string, t: Token) {
    match t
    case Identifier(str) => w == str && 0 < |w| <= 15 && IsAlpha(w[0]) && All(w, IsAlnum)
    case Variable(str) => w == str && 0 < |w| <= 15 && IsSigil(w[0]) && All(w[1..], IsAlnum)
    case LString(str) => w == "!" + str + "!" && |str| <= 15 && '!' !in str
    case LUInteger(n) => Decimal(w, n) || Octal(w, n) || Hexadecimal(w, n)
    case _ => false
  }

  /** The character c can follow the lexeme w of t without changing what w is read as. */
  predicate Boundary(w: string, t: Token, c: char) {
    match t
    case Identifier(_) => !IsAlnum(c)
    case Variable(_) => !IsAlnum(c)
    case LUInteger(_) => !IsHex(c) && (w == "0" ==> !IsX(c))
    case _ => true
  }

  predicate ReadsFrom(s: string, b: nat, t: Token, j: nat) {
    b <= j <= |s| && Spells(s[b..j], t) && Boundary(s[b..j], t, At(s, j))
  }

  // After spaces, the token t, up to j.
  predicate Reads(s: string, i: nat, t: Token, j: nat) {
    exists b | i <= b <= |s| :: All(s[i..b], IsSpace) && ReadsFrom(s, b, t, j)
  }

  predicate Delivered(t: Token) { !t.Error? && !t.Unknown? && !t.Eoi? && !t.Void? }

  lemma HexIsDigit16(w: string)
    ensures All(w, IsHex) <==> Numeral(w, 16)
  {
  }

  lemma NumeralIsHex(w: string, base: nat)
    requires ScannerBase(base) && Numeral(w, base)
    ensures All(w, IsHex)
  {
  }

  lemma RunOfHex(s: string, b: nat, m: nat, j: nat)
    requires b <= m <= j <= |s| && All(s[b..j], IsHex) && !IsHex(At(s, j))
    ensures RunEnd(s, m, IsHex) == j
  {
    forall i | 0 <= i < j - m ensures IsHex(s[m..j][i]) { assert s[m..j][i] == s[b..j][m - b + i]; }
    RunEndUnique(s, m, j, IsHex);
  }

  lemma IntReads(s: string, b: nat, n: u32, j: nat)
    requires ReadsFrom(s, b, LUInteger(n), j) && b < |s| && IsDigit(s[b])
    ensures IntScan(s, b) == Scan(LUInteger(n), j)
  {
    var w := s[b..j];
    if Hexadecimal(w, n) {
      HexIsDigit16(w[2..]);
      assert w[2..] == s[b + 2..j] && w[2] == s[b + 2];
      assert w[1] == s[b + 1];
      RunOfHex(s, b + 2, b + 3, j);
      CapFits(16, w[2..]);
    } else {
      var base := if w[0] == '0' then 8 else 10;
      NumeralIsHex(w, base);
      RunOfHex(s, b, b + 1, j);
      CapFits(base, w);
      if j > b + 1 { assert w[1] == s[b + 1]; }
    }
  }

  lemma IntReadBack(s: string, b: nat, n: u32, j: nat)
    requires b < |s| && IsDigit(s[b]) && IntScan(s, b) == Scan(LUInteger(n), j)
    ensures ReadsFrom(s, b, LUInteger(n), j)
  {
    var w := s[b..j];
    if HexPrefix(s, b) {
      assert w[2..] == s[b + 2..j];
      CapFits(16, w[2..]);
    } else {
      CapFits(if s[b] == '0' then 8 else 10, w);
    }
  }

  /** The scanner reads exactly the lexemes of the language: a token it delivers is spelt by
      the characters it passed, and a spelling with a boundary behind it is always read. */
  lemma LexIffReads(s: string, b: nat, t: Token, j: nat)
    requires IsCString(s) && b <= |s| && Delivered(t)
    ensures LexAt(s, b) == Scan(t, j) <==> ReadsFrom(s, b, t, j)
  {
    if LexAt(s, b) == Scan(t, j) { LexGivesReading(s, b, t, j); }
    if ReadsFrom(s, b, t, j) { ReadingIsLexed(s, b, t, j); }
  }

  lemma Quoted(s: string, b: nat, e: nat)
    requires b < e < |s| && s[b] == s[e] == '!'
    ensures s[b..e + 1] == "!" + s[b + 1..e] + "!"
  {
  }

  lemma LexGivesReading(s: string, b: nat, t: Token, j: nat)
    requires IsCString(s) && b <= |s| && Delivered(t) && LexAt(s, b) == Scan(t, j)
    ensures ReadsFrom(s, b, t, j)
  {
    var c := At(s, b);
    var w := s[b..j];
    if c == '!' {
      Quoted(s, b, j - 1);
    } else if IsSigil(c) || IsAlpha(c) {
      assert w == [c] + s[b + 1..j];
      assert w[1..] == s[b + 1..j];
    } else {
      IntReadBack(s, b, t.integer, j);
    }
  }

  lemma Inside(s: string, b: nat, j: nat, str: string)
    requires b <= j <= |s| && s[b..j] == "!" + str + "!"
    ensures b + 2 <= j && s[b + 1..j - 1] == str && s[j - 1] == '!'
  {
    var w := s[b..j];
    assert |w| == |str| + 2;
    assert s[j - 1] == w[|w| - 1];
    forall k | 0 <= k < |str| ensures s[b + 1 + k] == str[k] { assert s[b + 1 + k] == w[k + 1]; }
  }

  lemma ReadingIsLexed(s: string, b: nat, t: Token, j: nat)
    requires IsCString(s) && Delivered(t) && ReadsFrom(s, b, t, j)
    ensures LexAt(s, b) == Scan(t, j)
  {
    var w := s[b..j];
    assert w[0] == s[b];
    match t
    case LUInteger(n) => IntReads(s, b, n, j);
    case LString(str) =>
      Inside(s, b, j, str);
      SeekUnique(s, b + 1, j - 1, '!');
    case Identifier(_) =>
      assert w[1..] == s[b + 1..j];
      RunEndUnique(s, b + 1, j, IsAlnum);
    case Variable(_) =>
      assert w[1..] == s[b + 1..j];
      RunEndUnique(s, b + 1, j, IsAlnum);
    case _ =>
  }

  // A token starts behind all the spaces.
  lemma StartsBehindSpaces(s: string, i: nat, b: nat, t: Token, j: nat)
    requires i <= b <= |s| && All(s[i..b], IsSpace) && ReadsFrom(s, b, t, j) && Delivered(t)
    ensures RunEnd(s, i, IsSpace) == b
  {
    assert s[b] == s[b..j][0];
    RunEndUnique(s, i, b, IsSpace);
  }

  /** The same behind spaces. */
  lemma LexIsReading(s: string, i: nat, t: Token, j: nat)
    requires IsCString(s) && i <= |s| && Delivered(t)
    ensures Lex(s, i) == Scan(t, j) <==> Reads(s, i, t, j)
  {
    LexIffReads(s, RunEnd(s, i, IsSpace), t, j);
    if Reads(s, i, t, j) {
      var b :| i <= b <= |s| && All(s[i..b], IsSpace) && ReadsFrom(s, b, t, j);
      StartsBehindSpaces(s, i, b, t, j);
    }
  }

  // ---- The characters by their codes ----

  // 0 to 9, A to Z, _ and a to z.
  predicate IsWordCode(c: int) { 48 <= c <= 57 || 65 <= c <= 90 || c == 95 || 97 <= c <= 122 }

  // 0 to 9, A to F and a to f.
  predicate IsHexCode(c: int) { 48 <= c <= 57 || 65 <= c <= 70 || 97 <= c <= 102 }

  predicate AreWordCodes(w: string) { forall i | 0 <= i < |w| :: IsWordCode(w[i] as int) }

  // A word that does not begin with a digit.
  predicate IsWord(w: string) { 0 < |w| && AreWordCodes(w) && !(48 <= w[0] as int <= 57) }

  // One of the three characters that variables begin with, and a word that may be empty or begin
  // with a digit.
  predicate IsVariable(w: string) {
    0 < |w| && (w[0] == '$' || w[0] == '%' || w[0] == '.') && AreWordCodes(w[1..])
  }

  lemma CodesAreAlnum(w: string)
    ensures AreWordCodes(w) <==> All(w, IsAlnum)
  {
  }

  /** A word ends where a character that is none of these follows, and nowhere before; up to fifteen
      characters it is an identifier. */
  lemma WordIsLexed(w: string, rest: string)
    requires IsWord(w) && (rest != "" ==> !IsWordCode(rest[0] as int))
    ensures Lex(w + rest, 0) == Scan(if |w| <= 15 then Identifier(w) else Error(StrTooLong), |w|)
  {
    LettersRun(w, rest);
    assert IsAlpha(w[0]);
  }

  lemma LettersRun(w: string, rest: string)
    requires 0 < |w| && AreWordCodes(w[1..]) && (rest != "" ==> !IsWordCode(rest[0] as int))
    ensures RunEnd(w + rest, 1, IsAlnum) == |w| && (w + rest)[0..|w|] == w && (w + rest)[0] == w[0]
  {
    CodesAreAlnum(w[1..]);
    assert (w + rest)[1..|w|] == w[1..];
    RunEndUnique(w + rest, 1, |w|, IsAlnum);
  }

  lemma VariableIsLexed(w: string, rest: string)
    requires IsVariable(w) && (rest != "" ==> !IsWordCode(rest[0] as int))
    ensures Lex(w + rest, 0) == Scan(if |w| <= 15 then Variable(w) else Error(StrTooLong), |w|)
  {
    LettersRun(w, rest);
  }

  /** A string is what stands between two exclamation marks. */
  lemma StringIsLexed(str: string, rest: string)
    requires '!' !in str
    ensures Lex("!" + str + "!" + rest, 0) == Scan(if |str| <= 15 then LString(str) else Error(StrTooLong), |str| + 2)
  {
    var s := "!" + str + "!" + rest;
    assert s[1..|str| + 1] == str && s[|str| + 1] == '!';
    SeekUnique(s, 1, |str| + 1, '!');
  }

  predicate AreHexCodes(w: string) { forall i | 0 <= i < |w| :: IsHexCode(w[i] as int) }

  lemma CodesAreHex(w: string)
    ensures AreHexCodes(w) <==> All(w, IsHex)
    ensures AreHexCodes(w) <==> Numeral(w, 16)
    ensures (forall i | 0 <= i < |w| :: 48 <= w[i] as int <= 57) <==> Numeral(w, 10)
    ensures (forall i | 0 <= i < |w| :: 48 <= w[i] as int <= 55) <==> Numeral(w, 8)
  {
  }

  // What a number in base 8 or 10 of up to so many digits is read as.
  function NumberToken(w: string, base: nat, longest: nat): Token {
    if |w| > longest then Error(NumStrTooLong)
    else if !Numeral(w, base) then Error(WrongNum)
    else LUInteger(Value(w, base) % 0x1_0000_0000)
  }

  /** A number goes on over hexadecimal digits, whatever its base. Behind "0x" it is hexadecimal, with
      one to eight digits; otherwise octal behind a 0, with up to eleven, and decimal with up to
      nine. */
  lemma NumberIsLexed(w: string, rest: string)
    requires 0 < |w| && 48 <= w[0] as int <= 57 && AreHexCodes(w) && (rest != "" ==> !IsHexCode(rest[0] as int))
    requires w == "0" && rest != "" ==> rest[0] != 'x' && rest[0] != 'X'
    ensures Lex(w + rest, 0) == Scan(if w[0] == '0' then NumberToken(w, 8, 11) else NumberToken(w, 10, 9), |w|)
  {
    HexRun(w, rest, 1);
    DigitFirst(w + rest);
    assert !HexPrefix(w + rest, 0) by { NotPrefixed(w, rest); }
  }

  lemma DigitFirst(s: string)
    requires 0 < |s| && IsDigit(s[0])
    ensures Lex(s, 0) == IntScan(s, 0)
  {
  }

  lemma NotPrefixed(w: string, rest: string)
    requires 0 < |w| && AreHexCodes(w) && (w == "0" && rest != "" ==> rest[0] != 'x' && rest[0] != 'X')
    ensures !HexPrefix(w + rest, 0)
  {
    if |w| > 1 { assert (w + rest)[1] == w[1]; }
  }

  lemma HexRun(w: string, rest: string, k: nat)
    requires k <= |w| && AreHexCodes(w[k..]) && (rest != "" ==> !IsHexCode(rest[0] as int))
    ensures RunEnd(w + rest, k, IsHex) == |w| && (w + rest)[k..|w|] == w[k..] && (w + rest)[0..|w|] == w
  {
    CodesAreHex(w[k..]);
    assert (w + rest)[k..|w|] == w[k..];
    RunEndUnique(w + rest, k, |w|, IsHex);
  }

  lemma HexIsLexed(x: char, w: string, rest: string)
    requires (x == 'x' || x == 'X') && 0 < |w| && AreHexCodes(w) && (rest != "" ==> !IsHexCode(rest[0] as int))
    ensures Lex(['0', x] + w + rest, 0) == Scan(NumberToken(w, 16, 8), |w| + 2)
  {
    var v := ['0', x] + w;
    assert v[3..] == w[1..] && v[2..] == w;
    HexRun(v, rest, 3);
    assert (v + rest)[2..|v|] == w;
    CodesAreHex(w);
  }

  /** "0x" without a digit behind it. */
  lemma NoHexDigit(x: char, rest: string)
    requires (x == 'x' || x == 'X') && (rest != "" ==> !IsHexCode(rest[0] as int))
    ensures Lex(['0', x] + rest, 0) == Scan(Error(WrongNum), 2)
  {
  }

  /** Anything else is unknown up to the next space, its first character excepted. */
  lemma UnknownIsLexed(c: char, w: string, rest: string)
    requires !IsWordCode(c as int) && c != '$' && c != '%' && c != '.' && c != '!' && c != ' ' && c != '\0'
    requires ' ' !in w
    ensures Lex([c] + w + " " + rest, 0) == Scan(Unknown, |w| + 1)
  {
    var s := [c] + w + " " + rest;
    assert s[1..|w| + 1] == w && s[|w| + 1] == ' ';
    SeekUnique(s, 1, |w| + 1, ' ');
  }

  /** Spaces before a token are passed over. */
  lemma SpacesArePassedOver(s: string, i: nat, k: nat)
    requires i + k <= |s| && s[i..i + k] == Repeat(' ', k) && At(s, i + k) != ' '
    ensures Lex(s, i) == LexAt(s, i + k)
  {
    RunEndUnique(s, i, i + k, IsSpace);
  }
}
