/** sh/parser.c: the tokens of a line, at most four with the end of the input. */
module Parser {
  import opened Words
  import opened Strings
  import opened Numerals
  import opened Tokens
  import opened LexModel
  import opened Scanner
  import opened Printer
  import opened Format

  const SYNTAX_VEC_LEN := 4

  datatype ParseError = TooManyTokens | ErrorToken | UnknownToken | Internal

  datatype Parsed = Accepted(tokens: seq<Token>) | Rejected(error: ParseError) | Overruns

  function Prepend(t: Token, rest: Parsed): Parsed {
    if rest.Accepted? then Accepted([t] + rest.tokens) else rest
  }

  // The scanner of a line: position to what is delivered from there.
  type Scans = nat -> Scan

  function ScansOf(s: string): Scans { (i: nat) => if i <= |s| then Lex(s, i) else RunsOff }

  function Parse(scans: Scans, i: nat, room: nat): Parsed
    decreases room
  {
    if room == 0 then Rejected(TooManyTokens)
    else
      match scans(i)
      case RunsOff => Overruns
      case Scan(t, j) =>
        if t.Error? then Rejected(ErrorToken)
        else if t.Unknown? then Rejected(UnknownToken)
        else if t.Eoi? then Accepted([Eoi])
        else Prepend(t, Parse(scans, j, room - 1))
  }

  // The parser from position i on, with room for so many tokens.
  function ParseFrom(s: string, i: nat, room: nat): Parsed
    requires i <= |s|
  {
    Parse(ScansOf(s), i, room)
  }

  // Accepted, with the tokens ts and the end of the input.
  predicate ParsesTo(s: string, i: nat, room: nat, ts: seq<Token>)
    requires i <= |s|
  {
    ParseFrom(s, i, room) == Accepted(ts + [Eoi])
  }

  // ---- Which lines are accepted, without the parser ----

  // The tokens ts, one behind the other: ts[k] from marks[k] to marks[k + 1].
  predicate Reading(s: string, ts: seq<Token>, marks: seq<nat>) {
    && |marks| == |ts| + 1
    && (forall k | 0 <= k < |marks| :: marks[k] <= |s|)
    && forall k | 0 <= k < |ts| :: Delivered(ts[k]) && Reads(s, marks[k], ts[k], marks[k + 1])
  }

  predicate Blank(s: string, i: nat) { i <= |s| && All(s[i..], IsSpace) }

  ghost predicate StartsWith(s: string, i: nat, ts: seq<Token>) {
    exists marks :: Reading(s, ts, marks) && marks[0] == i
  }

  // The line spells ts and nothing more.
  ghost predicate Spelt(s: string, i: nat, ts: seq<Token>) {
    exists marks :: Reading(s, ts, marks) && marks[0] == i && Blank(s, marks[|ts|])
  }

  lemma BlankIsEoi(s: string, i: nat)
    requires IsCString(s) && i <= |s|
    ensures Blank(s, i) <==> Lex(s, i).Scan? && Lex(s, i).token.Eoi?
  {
    var b := RunEnd(s, i, IsSpace);
    assert s[i..|s|] == s[i..];
    if Blank(s, i) { RunEndUnique(s, i, |s|, IsSpace); }
  }

  // What is known once ts are read and p is the outcome of the rest.
  function After(ts: seq<Token>, p: Parsed): Parsed {
    if p.Accepted? then Accepted(ts + p.tokens) else p
  }

  lemma AfterPrepend(ts: seq<Token>, t: Token, p: Parsed)
    ensures After(ts, Prepend(t, p)) == After(ts + [t], p)
  {
  }

  // Parsing from i takes in ts and goes on from j.
  predicate Continues(scans: Scans, i: nat, room: nat, ts: seq<Token>, j: nat) {
    |ts| <= room && Parse(scans, i, room) == After(ts, Parse(scans, j, room - |ts|))
  }

  lemma ContinuesStep(scans: Scans, i: nat, room: nat, ts: seq<Token>, j: nat, t: Token, m: nat)
    requires Continues(scans, i, room, ts, j) && |ts| < room && Delivered(t) && scans(j) == Scan(t, m)
    ensures Continues(scans, i, room, ts + [t], m)
  {
    AfterPrepend(ts, t, Parse(scans, m, room - |ts| - 1));
  }

  lemma {:induction false} MarksParse(scans: Scans, room: nat, ts: seq<Token>, marks: seq<nat>, k: nat)
    requires |marks| == |ts| + 1 && k <= |ts| <= room
    requires forall k | 0 <= k < |ts| :: Delivered(ts[k]) && scans(marks[k]) == Scan(ts[k], marks[k + 1])
    ensures Continues(scans, marks[0], room, ts[..k], marks[k])
    decreases k
  {
    if k == 0 {
      AfterNothing(Parse(scans, marks[0], room));
    } else {
      MarksParse(scans, room, ts, marks, k - 1);
      ContinuesStep(scans, marks[0], room, ts[..k - 1], marks[k - 1], ts[k - 1], marks[k]);
      assert ts[..k] == ts[..k - 1] + [ts[k - 1]];
    }
  }

  /** The parser takes in what is spelt and goes on behind it. */
  lemma ReadingParses(s: string, room: nat, ts: seq<Token>, marks: seq<nat>)
    requires IsCString(s) && Reading(s, ts, marks) && |ts| <= room
    ensures ParseFrom(s, marks[0], room) == After(ts, ParseFrom(s, marks[|ts|], room - |ts|))
  {
    forall k | 0 <= k < |ts| ensures ScansOf(s)(marks[k]) == Scan(ts[k], marks[k + 1]) {
      LexIsReading(s, marks[k], ts[k], marks[k + 1]);
    }
    MarksParse(ScansOf(s), room, ts, marks, |ts|);
    assert ts[..|ts|] == ts;
  }

  lemma AfterNothing(p: Parsed)
    ensures After([], p) == p
  {
  }

  lemma BlankIsAccepted(s: string, i: nat, room: nat)
    requires IsCString(s) && Blank(s, i) && 0 < room
    ensures ParseFrom(s, i, room) == Accepted([Eoi])
  {
  }

  lemma SpeltIsAccepted(s: string, room: nat, ts: seq<Token>, marks: seq<nat>)
    requires IsCString(s) && Reading(s, ts, marks) && Blank(s, marks[|ts|]) && |ts| < room
    ensures ParsesTo(s, marks[0], room, ts)
  {
    ReadingParses(s, room, ts, marks);
    BlankIsAccepted(s, marks[|ts|], room - |ts|);
    assert ts[..|ts|] == ts;
  }

  lemma FullIsTooMany(s: string, room: nat, ts: seq<Token>, marks: seq<nat>)
    requires IsCString(s) && Reading(s, ts, marks) && room <= |ts|
    ensures ParseFrom(s, marks[0], room) == Rejected(TooManyTokens)
  {
    ReadingParses(s, room, ts[..room], marks[..room + 1]);
  }

  lemma ReadingConsed(s: string, i: nat, t: Token, ts: seq<Token>, marks: seq<nat>)
    requires i <= |s| && Delivered(t) && Reading(s, ts, marks) && Reads(s, i, t, marks[0])
    ensures Reading(s, [t] + ts, [i] + marks)
  {
  }

  lemma ConsedParses(s: string, i: nat, room: nat, t: Token, m: nat, ts: seq<Token>)
    requires i <= |s| && 0 < room && Lex(s, i) == Scan(t, m) && Delivered(t) && ParsesTo(s, m, room - 1, ts)
    ensures ParsesTo(s, i, room, [t] + ts)
  {
    assert [t] + ts + [Eoi] == [t] + (ts + [Eoi]);
  }

  lemma {:induction false} AcceptedIsSpelt(s: string, i: nat, room: nat) returns (ts: seq<Token>, marks: seq<nat>)
    requires IsCString(s) && i <= |s| && ParseFrom(s, i, room).Accepted?
    ensures ParsesTo(s, i, room, ts) && |ts| < room
    ensures Reading(s, ts, marks) && marks[0] == i && Blank(s, marks[|ts|])
    decreases room
  {
    var Scan(t, m) := Lex(s, i);
    if t.Eoi? {
      BlankIsEoi(s, i);
      ts, marks := [], [i];
    } else {
      LexIsReading(s, i, t, m);
      ts, marks := AcceptedIsSpelt(s, m, room - 1);
      ReadingConsed(s, i, t, ts, marks);
      ConsedParses(s, i, room, t, m, ts);
      ts, marks := [t] + ts, [i] + marks;
    }
  }

  /** Exactly the lines that spell fewer tokens than there is room for are accepted, with
      these tokens and the end of the input as the result. */
  lemma AcceptedIffSpelt(s: string, ts: seq<Token>, room: nat)
    requires IsCString(s)
    ensures ParsesTo(s, 0, room, ts) <==> |ts| < room && Spelt(s, 0, ts)
  {
    if |ts| < room && Spelt(s, 0, ts) {
      var marks :| Reading(s, ts, marks) && marks[0] == 0 && Blank(s, marks[|ts|]);
      SpeltIsAccepted(s, room, ts, marks);
    }
    if ParsesTo(s, 0, room, ts) {
      var us, marks := AcceptedIsSpelt(s, 0, room);
      assert us == (us + [Eoi])[..|us|] == (ts + [Eoi])[..|ts|] == ts;
    }
  }

  lemma {:induction false} TooManyIsFull(s: string, i: nat, room: nat) returns (ts: seq<Token>, marks: seq<nat>)
    requires IsCString(s) && i <= |s| && ParseFrom(s, i, room) == Rejected(TooManyTokens)
    ensures |ts| == room && Reading(s, ts, marks) && marks[0] == i
    decreases room
  {
    if room == 0 {
      ts, marks := [], [i];
    } else {
      var Scan(t, m) := Lex(s, i);
      LexIsReading(s, i, t, m);
      ts, marks := TooManyIsFull(s, m, room - 1);
      ReadingConsed(s, i, t, ts, marks);
      ts, marks := [t] + ts, [i] + marks;
    }
  }

  /** A line has too many tokens if and only if it starts with as many as there is room for,
      whatever stands behind them. */
  lemma TooManyIff(s: string, room: nat)
    requires IsCString(s)
    ensures ParseFrom(s, 0, room) == Rejected(TooManyTokens) <==> exists ts | |ts| == room :: StartsWith(s, 0, ts)
  {
    if ParseFrom(s, 0, room) == Rejected(TooManyTokens) {
      var ts, marks := TooManyIsFull(s, 0, room);
      assert StartsWith(s, 0, ts);
    }
    if ts: seq<Token> :| |ts| == room && StartsWith(s, 0, ts) {
      var marks :| Reading(s, ts, marks) && marks[0] == 0;
      FullIsTooMany(s, room, ts, marks);
    }
  }

  // ---- Lines on which a scan runs past the end ----

  // Behind fewer tokens than there is room for, something starts that is never closed.
  ghost predicate LeavesOpen(s: string, i: nat, room: nat) {
    exists ts, marks :: |ts| < room && Opens(s, i, ts, marks)
  }

  predicate Opens(s: string, i: nat, ts: seq<Token>, marks: seq<nat>) {
    Reading(s, ts, marks) && marks[0] == i && Unclosed(s, RunEnd(s, marks[|ts|], IsSpace))
  }

  lemma {:induction false} OverrunIsOpen(s: string, i: nat, room: nat) returns (ts: seq<Token>, marks: seq<nat>)
    requires IsCString(s) && i <= |s| && ParseFrom(s, i, room) == Overruns
    ensures |ts| < room && Opens(s, i, ts, marks)
    decreases room
  {
    RunsOffIff(s, i);
    if Lex(s, i).RunsOff? {
      ts, marks := [], [i];
    } else {
      var Scan(t, m) := Lex(s, i);
      LexIsReading(s, i, t, m);
      ts, marks := OverrunIsOpen(s, m, room - 1);
      ReadingConsed(s, i, t, ts, marks);
      ts, marks := [t] + ts, [i] + marks;
    }
  }

  lemma OpenOverruns(s: string, i: nat, room: nat, ts: seq<Token>, marks: seq<nat>)
    requires IsCString(s) && |ts| < room && Opens(s, i, ts, marks)
    ensures ParseFrom(s, i, room) == Overruns
  {
    ReadingParses(s, room, ts, marks);
    RunsOffIff(s, marks[|ts|]);
  }

  /** A scan runs past the end of the line if and only if the line leaves something open. */
  lemma OverrunsIff(s: string, i: nat, room: nat)
    requires IsCString(s) && i <= |s|
    ensures ParseFrom(s, i, room) == Overruns <==> LeavesOpen(s, i, room)
  {
    if ParseFrom(s, i, room) == Overruns {
      var ts, marks := OverrunIsOpen(s, i, room);
    }
    if ts, marks :| |ts| < room && Opens(s, i, ts, marks) {
      OpenOverruns(s, i, room, ts, marks);
    }
  }

  /** A string without its closing delimiter, and a word the scanner does not know at the end. */
  lemma OpenLines()
    ensures ParseFrom("!a", 0, SYNTAX_VEC_LEN) == Overruns && ParseFrom("?", 0, SYNTAX_VEC_LEN) == Overruns
  {
    RunsOffIff("!a", 0);
    RunsOffIff("?", 0);
  }

  // ---- Writing a line ----

  // Lexemes with spaces before, between and behind them.
  function Render(ws: seq<string>, gaps: seq<nat>): string
    requires |gaps| == |ws| + 1
  {
    if ws == [] then Repeat(' ', gaps[0]) else Repeat(' ', gaps[0]) + ws[0] + Render(ws[1..], gaps[1..])
  }

  predicate AllSpell(ws: seq<string>, ts: seq<Token>) {
    |ws| == |ts| && forall k | 0 <= k < |ws| :: Spells(ws[k], ts[k])
  }

  predicate Spaced(gaps: seq<nat>) { forall k | 0 < k < |gaps| - 1 :: gaps[k] > 0 }

  lemma SpellsFacts(w: string, t: Token)
    requires Spells(w, t)
    ensures w != "" && Delivered(t) && Boundary(w, t, ' ') && Boundary(w, t, '\0')
  {
  }

  lemma {:induction false} RenderReads(before: string, ws: seq<string>, gaps: seq<nat>, ts: seq<Token>)
    returns (marks: seq<nat>)
    requires AllSpell(ws, ts) && |gaps| == |ws| + 1 && Spaced(gaps)
    ensures var s := before + Render(ws, gaps); Reading(s, ts, marks) && marks[0] == |before| && Blank(s, marks[|ts|])
    decreases |ws|
  {
    var s := before + Render(ws, gaps);
    if ws == [] {
      marks := [|before|];
      assert s[|before|..] == Repeat(' ', gaps[0]);
    } else {
      var front := before + Repeat(' ', gaps[0]) + ws[0];
      SpellsFacts(ws[0], ts[0]);
      AppendAssoc(before, Repeat(' ', gaps[0]), ws[0]);
      AppendAssoc(before, Repeat(' ', gaps[0]) + ws[0], Render(ws[1..], gaps[1..]));
      marks := RenderReads(front, ws[1..], gaps[1..], ts[1..]);
      FirstReads(before, gaps[0], ws[0], Render(ws[1..], gaps[1..]), ts[0]);
      ReadingConsed(s, |before|, ts[0], ts[1..], marks);
      assert [ts[0]] + ts[1..] == ts;
      marks := [|before|] + marks;
    }
  }

  lemma FirstReads(before: string, gap: nat, w: string, rest: string, t: Token)
    requires Spells(w, t) && (rest == "" || rest[0] == ' ')
    ensures var front := before + Repeat(' ', gap) + w; Reads(front + rest, |before|, t, |front|)
  {
    var b, front := |before| + gap, before + Repeat(' ', gap) + w;
    var s := front + rest;
    SpellsFacts(w, t);
    assert s[|before|..b] == Repeat(' ', gap);
    assert s[b..|front|] == w;
    assert ReadsFrom(s, b, t, |front|);
  }

  lemma {:induction false} RenderIsCString(ws: seq<string>, gaps: seq<nat>)
    requires |gaps| == |ws| + 1 && forall k | 0 <= k < |ws| :: IsCString(ws[k])
    ensures IsCString(Render(ws, gaps))
  {
    if ws != [] { RenderIsCString(ws[1..], gaps[1..]); }
  }

  /** Writing tokens with spaces between them and parsing the line gives the same tokens and
      the end of the input when there are at most three, and the error "too many" otherwise. */
  lemma RenderedParses(ws: seq<string>, gaps: seq<nat>, ts: seq<Token>)
    requires AllSpell(ws, ts) && |gaps| == |ws| + 1 && Spaced(gaps) && forall k | 0 <= k < |ws| :: IsCString(ws[k])
    ensures ParseFrom(Render(ws, gaps), 0, SYNTAX_VEC_LEN) ==
            if |ts| < SYNTAX_VEC_LEN then Accepted(ts + [Eoi]) else Rejected(TooManyTokens)
  {
    var s := Render(ws, gaps);
    RenderIsCString(ws, gaps);
    assert "" + s == s;
    var marks := RenderReads("", ws, gaps, ts);
    if |ts| < SYNTAX_VEC_LEN {
      SpeltIsAccepted(s, SYNTAX_VEC_LEN, ts, marks);
    } else {
      FullIsTooMany(s, SYNTAX_VEC_LEN, ts, marks);
    }
  }

  // What the directive "0x%x" prints.
  function Printed(n: u32): string {
    "0x" + DigitsOf(n, 16, true)
  }

  /** What the printer writes for an integer variable is read back as the same integer. */
  lemma PrintedIntegerIsRead(args: nat -> Arg)
    ensures ParseFrom(Formatted("0x%x", args), 0, SYNTAX_VEC_LEN) == Accepted([LUInteger(args(0).word), Eoi])
  {
    HexDirective(args);
    HexIsRead(args(0).word);
  }

  lemma HexIsRead(n: u32)
    ensures ParseFrom(Printed(n), 0, SYNTAX_VEC_LEN) == Accepted([LUInteger(n), Eoi])
  {
    PrintedIsHex(n);
    AloneParses(Printed(n), LUInteger(n));
  }

  // A line with one lexeme and nothing else.
  lemma AloneParses(w: string, t: Token)
    requires Spells(w, t) && IsCString(w)
    ensures ParseFrom(w, 0, SYNTAX_VEC_LEN) == Accepted([t, Eoi])
  {
    RenderedParses([w], [0, 0], [t]);
    RenderAlone(w);
    assert [t] + [Eoi] == [t, Eoi];
  }

  lemma RenderAlone(w: string)
    ensures Render([w], [0, 0]) == w
  {
  }

  lemma PrintedIsHex(n: u32)
    ensures Hexadecimal(Printed(n), n) && IsCString(Printed(n))
  {
    var ds := DigitsOf(n, 16, true);
    DigitsValue(n, 16, true);
    PowersFit();
    DigitsLength(n, 16, true, 8);
    PrefixedIsHex(ds, n);
  }

  lemma PrefixedIsHex(ds: string, n: nat)
    requires 0 < |ds| <= 8 && Numeral(ds, 16) && Value(ds, 16) == n
    ensures Hexadecimal("0x" + ds, n) && IsCString("0x" + ds)
  {
    var w := "0x" + ds;
    assert w[2..] == ds;
    forall i | 2 <= i < |w| ensures w[i] != '\0' { assert DigitVal(ds[i - 2], 16).Some?; }
  }

  // ---- Lines by their characters ----

  lemma CodesSpell(w: string)
    ensures IsWord(w) && |w| <= 15 ==> Spells(w, Identifier(w)) && IsCString(w)
    ensures IsVariable(w) && |w| <= 15 ==> Spells(w, Variable(w)) && IsCString(w)
  {
    CodesAreAlnum(w);
    if IsVariable(w) {
      CodesAreAlnum(w[1..]);
      assert w == [w[0]] + w[1..];
    }
  }

  lemma DigitsSpell(w: string)
    requires 0 < |w| <= 9 && w[0] != '0' && forall i | 0 <= i < |w| :: 48 <= w[i] as int <= 57
    ensures Numeral(w, 10) && Value(w, 10) < TWO32 && Spells(w, LUInteger(Value(w, 10))) && IsCString(w)
  {
    CodesAreHex(w);
    CapFits(10, w);
  }

  /** A word of up to fifteen letters, digits and _ is an identifier, if it does not begin with a
      digit. */
  lemma WordParses(w: string)
    requires IsWord(w) && |w| <= 15
    ensures ParseFrom(w, 0, SYNTAX_VEC_LEN) == Accepted([Identifier(w), Eoi])
  {
    CodesSpell(w);
    AloneParses(w, Identifier(w));
  }

  /** Behind a sigil such a word is a variable, and may then begin with a digit or be empty. */
  lemma VariableParses(w: string)
    requires IsVariable(w) && |w| <= 15
    ensures ParseFrom(w, 0, SYNTAX_VEC_LEN) == Accepted([Variable(w), Eoi])
  {
    CodesSpell(w);
    AloneParses(w, Variable(w));
  }

  lemma StringParses(str: string)
    requires '!' !in str && |str| <= 15 && IsCString(str)
    ensures ParseFrom("!" + str + "!", 0, SYNTAX_VEC_LEN) == Accepted([LString(str), Eoi])
  {
    AloneParses("!" + str + "!", LString(str));
  }

  lemma DecimalParses(w: string)
    requires 0 < |w| <= 9 && w[0] != '0' && forall i | 0 <= i < |w| :: 48 <= w[i] as int <= 57
    ensures Numeral(w, 10) && Value(w, 10) < TWO32
    ensures ParseFrom(w, 0, SYNTAX_VEC_LEN) == Accepted([LUInteger(Value(w, 10)), Eoi])
  {
    DigitsSpell(w);
    AloneParses(w, LUInteger(Value(w, 10)));
  }

  lemma ThreeParse(a: string, b: string, c: string, ta: Token, tb: Token, tc: Token)
    requires Spells(a, ta) && Spells(b, tb) && Spells(c, tc) && IsCString(a) && IsCString(b) && IsCString(c)
    ensures ParseFrom(a + " " + b + " " + c, 0, 4) == Accepted([ta, tb, tc, Eoi])
  {
    var ws, gaps, ts := [a, b, c], [0, 1, 1, 0], [ta, tb, tc];
    RenderThree(a, b, c);
    RenderedParses(ws, gaps, ts);
    assert ts + [Eoi] == [ta, tb, tc, Eoi];
  }

  lemma RenderThree(a: string, b: string, c: string)
    ensures Render([a, b, c], [0, 1, 1, 0]) == a + " " + b + " " + c
  {
    assert [a, b, c][1..] == [b, c] && [b, c][1..] == [c] && [c][1..] == [];
    assert [0, 1, 1, 0][1..] == [1, 1, 0] && [1, 1, 0][1..] == [1, 0] && [1, 0][1..] == [0];
    assert Render([], [0]) == "" && Render([c], [1, 0]) == " " + c;
    assert Render([b, c], [1, 1, 0]) == " " + b + (" " + c);
  }

  /** A line such as "set %v1 5": a word, a variable and a number, one space apart. */
  lemma AssignmentParses(word: string, v: string, digits: string)
    requires IsWord(word) && |word| <= 15 && IsVariable(v) && |v| <= 15
    requires 0 < |digits| <= 9 && digits[0] != '0' && forall i | 0 <= i < |digits| :: 48 <= digits[i] as int <= 57
    ensures Numeral(digits, 10) && Value(digits, 10) < TWO32
    ensures ParseFrom(word + " " + v + " " + digits, 0, 4) ==
            Accepted([Identifier(word), Variable(v), LUInteger(Value(digits, 10)), Eoi])
  {
    CodesSpell(word);
    CodesSpell(v);
    DigitsSpell(digits);
    ThreeParse(word, v, digits, Identifier(word), Variable(v), LUInteger(Value(digits, 10)));
  }

  /** Behind tokens for which there is room, a lexeme in error makes the line an error, and an
      unknown one makes it unknown; both leave the rest unread. */
  lemma FirstBadToken(s: string, room: nat, ts: seq<Token>, marks: seq<nat>, t: Token, j: nat)
    requires IsCString(s) && Reading(s, ts, marks) && |ts| < room && Lex(s, marks[|ts|]) == Scan(t, j)
    ensures t.Error? ==> ParseFrom(s, marks[0], room) == Rejected(ErrorToken)
    ensures t.Unknown? ==> ParseFrom(s, marks[0], room) == Rejected(UnknownToken)
  {
    ReadingParses(s, room, ts, marks);
  }

  lemma BadStart(s: string, t: Token, j: nat)
    requires IsCString(s) && Lex(s, 0) == Scan(t, j)
    ensures t.Error? ==> ParseFrom(s, 0, 4) == Rejected(ErrorToken)
    ensures t.Unknown? ==> ParseFrom(s, 0, 4) == Rejected(UnknownToken)
  {
    FirstBadToken(s, 4, [], [0], t, j);
  }

  /** A word of more than fifteen characters, an octal number with an 8, and a question mark. */
  lemma RejectedLines(w: string)
    requires IsWord(w) && 15 < |w|
    ensures ParseFrom(w, 0, 4) == Rejected(ErrorToken)
    ensures ParseFrom("08", 0, 4) == Rejected(ErrorToken)
    ensures ParseFrom("? ", 0, 4) == Rejected(UnknownToken)
  {
    WordIsLexed(w, "");
    assert w + "" == w;
    BadStart(w, Error(StrTooLong), |w|);
    EightIsNotOctal();
    BadStart("08", Error(WrongNum), 2);
    UnknownIsLexed('?', "", "");
    assert ['?'] + "" + " " + "" == "? ";
    BadStart("? ", Unknown, 1);
  }

  lemma EightIsNotOctal()
    ensures Lex("08", 0) == Scan(Error(WrongNum), 2)
  {
    NumberIsLexed("08", "");
    assert "08" + "" == "08";
    assert DigitVal("08"[1], 8).None?;
  }

  class SyntaxData {
    const vec: array<Token>
    var errCode: ParseError

    constructor ()
      ensures fresh(vec) && vec.Length == SYNTAX_VEC_LEN
    {
      vec := new Token[SYNTAX_VEC_LEN](_ => Void);
      errCode := TooManyTokens;
    }

    /** parser_do: on success the vector holds the tokens and is Void behind them; the error
        is "internal" only without a line. */
    method Do(line: Option<string>) returns (ok: bool)
      requires vec.Length == SYNTAX_VEC_LEN
      requires line.Some? ==> IsCString(line.value) && !LeavesOpen(line.value, 0, SYNTAX_VEC_LEN)
      modifies this`errCode, vec
      ensures line.None? ==> !ok && errCode == Internal && vec[..] == old(vec[..])
      ensures line.Some? ==>
                if ok then ParseFrom(line.value, 0, SYNTAX_VEC_LEN).Accepted? &&
                  Holds(ParseFrom(line.value, 0, SYNTAX_VEC_LEN).tokens)
                else ParseFrom(line.value, 0, SYNTAX_VEC_LEN) == Rejected(errCode)
    {
      if line.None? {
        errCode := Internal;
        return false;
      }
      for i := 0 to vec.Length
        invariant forall k | 0 <= k < i :: vec[k] == Void
      {
        vec[i] := Void;
      }
      OverrunsIff(line.value, 0, SYNTAX_VEC_LEN);
      ok := Fill(line.value);
    }

    ghost predicate Holds(tokens: seq<Token>)
      reads vec
    {
      |tokens| <= vec.Length && vec[..|tokens|] == tokens && forall k | |tokens| <= k < vec.Length :: vec[k] == Void
    }

    method Fill(line: string) returns (ok: bool)
      requires vec.Length == SYNTAX_VEC_LEN && Holds([])
      requires ParseFrom(line, 0, SYNTAX_VEC_LEN) != Overruns
      modifies this`errCode, vec
      ensures var p := ParseFrom(line, 0, SYNTAX_VEC_LEN);
        if ok then p.Accepted? && Holds(p.tokens) else p == Rejected(errCode)
    {
      var lexer := new Lexer(line);
      var idx := 0;
      while idx < SYNTAX_VEC_LEN
        invariant 0 <= idx <= SYNTAX_VEC_LEN && lexer.Valid() && fresh(lexer) && lexer.line == line && !lexer.eoiReached
        invariant Holds(vec[..idx]) && !lexer.tokenAvailable
        invariant Continues(ScansOf(line), 0, SYNTAX_VEC_LEN, vec[..idx], lexer.forward)
      {
        ghost var seen, i := vec[..idx], lexer.forward;
        RunsOffIff(line, i);
        lexer.Process();
        if !lexer.tokenAvailable { assert false; }
        var token := lexer.GetToken();
        if token.Error? {
          errCode := ErrorToken;
          return false;
        }
        if token.Unknown? {
          errCode := UnknownToken;
          return false;
        }
        vec[idx] := token;
        assert vec[..idx + 1] == seen + [token];
        if token.Eoi? { return true; }
        ContinuesStep(ScansOf(line), 0, SYNTAX_VEC_LEN, seen, i, token, lexer.forward);
        idx := idx + 1;
      }
      errCode := TooManyTokens;
      ok := false;
    }

    /** parser_data_len: the number of tokens before the end of the input. */
    method DataLen() returns (n: int)
      ensures 0 <= n ==> n < vec.Length && vec[n] == Eoi && forall k | 0 <= k < n :: vec[k] != Eoi
      ensures n < 0 ==> n == -1 && forall k | 0 <= k < vec.Length :: vec[k] != Eoi
    {
      for i := 0 to vec.Length
        invariant forall k | 0 <= k < i :: vec[k] != Eoi
      {
        if vec[i].Eoi? { return i; }
      }
      return -1;
    }
  }
}
