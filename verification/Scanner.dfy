/** sh/lexer.c as the program runs it: two pointers that step over the line. */
module Scanner {
  import opened Words
  import opened Strings
  import opened Numerals
  import opened Tokens
  import opened LexModel

  class Lexer {
    const line: string
    var begin: nat
    var forward: nat
    var eoiReached: bool
    var token: Token
    var tokenAvailable: bool

    ghost predicate Valid()
      reads this`begin, this`forward
    {
      begin <= forward <= |line|
    }

    // lexer_init
    constructor (line: string)
      ensures Valid() && this.line == line && forward == 0 && !eoiReached && !tokenAvailable
    {
      this.line, begin, forward := line, 0, 0;
      eoiReached, token, tokenAvailable := false, Void, false;
    }

    function CurChar(): char
      requires forward <= |line|
      reads this`forward
    {
      At(line, forward)
    }

    // do forward++ while the current character is in p
    method RunForward(p: char -> bool)
      requires Valid() && forward < |line| && !p('\0')
      modifies this`forward
      ensures Valid() && forward == RunEnd(line, old(forward) + 1, p)
    {
      ghost var i := forward + 1;
      forward := forward + 1;
      while p(CurChar())
        invariant i <= forward <= |line| && RunEnd(line, i, p) == RunEnd(line, forward, p)
        decreases |line| - forward
      {
        forward := forward + 1;
      }
    }

    // do forward++ until the current character is c
    method RunTo(c: char)
      requires Valid() && forward < |line| && Seek(line, forward + 1, c).Some?
      modifies this`forward
      ensures Valid() && forward == Seek(line, old(forward) + 1, c).value
    {
      ghost var i := forward + 1;
      forward := forward + 1;
      while CurChar() != c
        invariant i <= forward <= |line| && Seek(line, i, c) == Seek(line, forward, c)
        decreases |line| - forward
      {
        forward := forward + 1;
      }
    }

    // _scan and _flush_buffer
    method SkipSpaces()
      requires Valid()
      modifies this`forward, this`begin
      ensures Valid() && begin == forward == RunEnd(line, old(forward), IsSpace)
    {
      while IsSpace(CurChar())
        invariant old(forward) <= forward <= |line|
        invariant RunEnd(line, old(forward), IsSpace) == RunEnd(line, forward, IsSpace)
        decreases |line| - forward
      {
        forward := forward + 1;
      }
      begin := forward;
    }

    // _process_luinteger
    method ProcessInteger() returns (t: Token)
      requires Valid() && begin == forward < |line| && IsDigit(line[begin])
      modifies this`forward
      ensures Valid() && Scan(t, forward) == IntScan(line, begin)
    {
      var base := 10;
      if CurChar() == '0' {
        if IsX(At(line, forward + 1)) {
          base := 16;
          forward := forward + 2;
        } else {
          base := 8;
        }
      }
      if base == 16 && !IsHex(CurChar()) { return Error(WrongNum); }
      t := ProcessDigits(base);
    }

    // The rest of it, from the first digit on.
    method ProcessDigits(base: nat) returns (t: Token)
      requires Valid() && begin <= forward < |line| && ScannerBase(base)
      requires forward == if base == 16 then begin + 2 else begin
      modifies this`forward
      ensures Valid() && forward == RunEnd(line, old(forward) + 1, IsHex)
      ensures t == IntToken(base, line[old(forward)..forward])
    {
      RunForward(IsHex);
      t := SetCapped(base, if base == 16 then line[begin + 2..forward] else line[begin..forward]);
    }

    // What lexer_process does behind the spaces.
    method ProcessToken() returns (t: Token)
      requires Valid() && begin == forward && LexAt(line, begin).Scan?
      modifies this`forward, this`eoiReached
      ensures Valid() && Scan(t, forward) == LexAt(line, begin) && (eoiReached <==> old(eoiReached) || t.Eoi?)
    {
      var c := CurChar();
      if c == '\0' {
        eoiReached := true;
        t := Eoi;
      } else if IsSigil(c) {
        RunForward(IsAlnum);
        t := Capped(Variable(line[begin..forward]), line[begin..forward]);
      } else if c == '!' {
        RunTo('!');
        forward := forward + 1;
        t := Capped(LString(line[begin + 1..forward - 1]), line[begin + 1..forward - 1]);
      } else if IsAlpha(c) {
        RunForward(IsAlnum);
        t := Capped(Identifier(line[begin..forward]), line[begin..forward]);
      } else if IsDigit(c) {
        t := ProcessInteger();
      } else {
        RunTo(' ');
        t := Unknown;
      }
    }

    /** lexer_process: the token Lex describes, once; nothing after the end of the input. */
    method Process()
      requires Valid() && (!eoiReached ==> !Unclosed(line, RunEnd(line, forward, IsSpace)))
      modifies this
      ensures Valid()
      ensures old(eoiReached) ==> unchanged(this)
      ensures !old(eoiReached) ==>
        Scan(token, forward) == Lex(line, old(forward)) && tokenAvailable && eoiReached == token.Eoi?
      ensures !old(eoiReached) ==> begin == RunEnd(line, old(forward), IsSpace)
    {
      if eoiReached { return; }
      RunsOffIff(line, forward);
      SkipSpaces();
      token := ProcessToken();
      tokenAvailable := true;
    }

    // lexer_get_token
    method GetToken() returns (t: Token)
      modifies this`tokenAvailable
      ensures t == token && !tokenAvailable
    {
      tokenAvailable := false;
      t := token;
    }
  }
}
