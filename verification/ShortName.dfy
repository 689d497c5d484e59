/** File names against the 11 name bytes of a directory entry (drivers/fat16.c, with the
    strncmp of lib/string.c, which leaves out the last character). */
module ShortName {
  import opened Words
  import opened Strings

  const BASENAME_LEN := 8
  const EXTENSION_LEN := 3
  const BLANK: u8 := 32

  predicate IsValid(c: char) {
    'a' <= c <= 'z' || 'A' <= c <= 'Z' || '0' <= c <= '9' || c == '_' || c == '-'
  }

  predicate IsNotDot(c: char) { c != '.' }

  // _char2upcase, as the byte of a valid character.
  function Upcase(c: char): u8
    requires IsValid(c)
  {
    if 'a' <= c <= 'z' then 'A' as int + (c as int - 'a' as int) else c as int
  }

  // A part of the name in capitals, filled up with blanks.
  function Padded(part: string, len: nat): (r: seq<u8>)
    requires |part| <= len && All(part, IsValid)
    ensures |r| == len && forall i | 0 <= i < len :: r[i] != 0
  {
    seq(len, i requires 0 <= i < len => if i < |part| then Upcase(part[i]) else BLANK)
  }

  predicate IsPart(part: string, len: nat) { |part| <= len && All(part, IsValid) }

  function Basename(filename: string): string { filename[..RunEnd(filename, 0, IsNotDot)] }

  function Extension(filename: string): string {
    var dot := RunEnd(filename, 0, IsNotDot);
    if dot < |filename| then filename[dot + 1..] else ""
  }

  // A file name that an entry can have: at most 8 characters, and at most 3 more behind a dot
  // that is not the first character.
  predicate IsFilename(filename: string) {
    && IsPart(Basename(filename), BASENAME_LEN) && IsPart(Extension(filename), EXTENSION_LEN)
    && (filename == "" || filename[0] != '.')
  }

  // The name bytes of the file.
  function NameBytes(filename: string): (r: seq<u8>)
    requires IsFilename(filename)
    ensures |r| == BASENAME_LEN + EXTENSION_LEN
  {
    Padded(Basename(filename), BASENAME_LEN) + Padded(Extension(filename), EXTENSION_LEN)
  }

  // A digit, a letter, - or _ by its code.
  predicate IsNameCode(c: int) { 48 <= c <= 57 || 65 <= c <= 90 || 97 <= c <= 122 || c == 45 || c == 95 }

  // The characters of a part in capitals, and blanks behind them.
  ghost predicate Fills(bytes: seq<u8>, part: string) {
    forall i | 0 <= i < |bytes| ::
      var c := if i < |part| then part[i] as int else 32;
      bytes[i] == if 97 <= c <= 122 then c - 32 else c
  }

  /** The names an entry can have, in characters: up to eight, and behind a dot up to three; and what
      the entry then holds. */
  lemma FilenameIff(filename: string, base: string, dot: bool, extension: string)
    requires forall i | 0 <= i < |base| :: base[i] != '.'
    requires filename == if dot then base + "." + extension else base
    requires !dot ==> extension == ""
    ensures IsFilename(filename) <==>
            && |base| <= 8 && |extension| <= 3 && (dot ==> base != "")
            && (forall i | 0 <= i < |base| :: IsNameCode(base[i] as int))
            && (forall i | 0 <= i < |extension| :: IsNameCode(extension[i] as int))
    ensures IsFilename(filename) ==> Fills(NameBytes(filename)[..8], base) && Fills(NameBytes(filename)[8..], extension)
  {
    assert filename[0..|base|] == base;
    RunEndUnique(filename, 0, |base|, IsNotDot);
    assert Basename(filename) == base && Extension(filename) == extension;
    CodesAreValid(base);
    CodesAreValid(extension);
    if IsFilename(filename) {
      assert NameBytes(filename)[..8] == Padded(base, 8) && NameBytes(filename)[8..] == Padded(extension, 3);
    }
  }

  lemma CodesAreValid(part: string)
    ensures All(part, IsValid) <==> forall i | 0 <= i < |part| :: IsNameCode(part[i] as int)
    ensures IsPart(part, 8) ==> Fills(Padded(part, 8), part)
    ensures IsPart(part, 3) ==> Fills(Padded(part, 3), part)
  {
  }

  /** What the comparison tests: all but the last byte of each part. */
  predicate IsNamed(name: seq<u8>, filename: string) {
    && |name| == BASENAME_LEN + EXTENSION_LEN && IsFilename(filename)
    && name[..7] == NameBytes(filename)[..7] && name[8..10] == NameBytes(filename)[8..10]
  }

  function Test(filename: string): seq<u8> -> bool { name => IsNamed(name, filename) }

  /** An entry that passes has exactly the file's name if and only if bytes 7 and 10 agree too. */
  lemma NamedIsExactIff(name: seq<u8>, filename: string)
    requires IsNamed(name, filename)
    ensures name == NameBytes(filename) <==> name[7] == NameBytes(filename)[7] && name[10] == NameBytes(filename)[10]
  {
    var want := NameBytes(filename);
    if name[7] == want[7] && name[10] == want[10] {
      forall i | 0 <= i < 11 ensures name[i] == want[i] {
        if i < 7 { assert name[i] == name[..7][i]; }
        if 8 <= i < 10 { assert name[i] == name[8..10][i - 8]; }
      }
    }
  }

  /** "kernel01" is taken for "KERNEL02". */
  lemma LastCharacterIgnored()
    ensures IsFilename("kernel01") && IsFilename("kernel02") && NameBytes("kernel01") != NameBytes("kernel02")
    ensures IsNamed(NameBytes("kernel02"), "kernel01")
  {
    RunEndUnique("kernel01", 0, 8, IsNotDot);
    RunEndUnique("kernel02", 0, 8, IsNotDot);
    var a, b := NameBytes("kernel01"), NameBytes("kernel02");
    assert a[7] == '1' as int && b[7] == '2' as int;
    assert a[..7] == b[..7] && a[8..10] == b[8..10];
  }

  /** strncmp, for a first string without NUL: it answers 0 if and only if all characters but
      the last agree. */
  method Strncmp(s1: seq<u8>, s2: seq<u8>, n: nat) returns (r: int)
    requires 0 < n == |s1| == |s2| && forall i | 0 <= i < n :: s1[i] != 0
    ensures r == 0 <==> s1[..n - 1] == s2[..n - 1]
  {
    var i, left := 0, n - 1;
    while left > 0
      invariant 0 <= left && i + left == n - 1 && s1[..i] == s2[..i]
    {
      assert s1[..n - 1][i] == s1[i] && s2[..n - 1][i] == s2[i];
      if s2[i] == 0 { return 1; }
      if s1[i] != s2[i] { return if s1[i] < s2[i] then -1 else 1; }
      i, left := i + 1, left - 1;
    }
    r := 0;
  }

  // Where a part ends: the basename at the first dot, the extension at the NUL.
  function PartEnd(filename: string, start: nat, atDot: bool): (end: nat)
    requires start <= |filename|
    ensures start <= end <= |filename|
  {
    if atDot then RunEnd(filename, start, IsNotDot) else |filename|
  }

  // A loop that copies the characters of one part. It gives up at a character behind the part's
  // length and at an invalid one.
  method CopyPart(filename: string, start: nat, atDot: bool, len: nat) returns (ok: bool, part: array<u8>, i: nat)
    requires start <= |filename|
    ensures fresh(part) && part.Length == len
    ensures ok <==> IsPart(filename[start..PartEnd(filename, start, atDot)], len)
    ensures ok ==> i == PartEnd(filename, start, atDot) && part[..] == Padded(filename[start..i], len)
  {
    part := new u8[len](_ => BLANK);
    ghost var want := filename[start..PartEnd(filename, start, atDot)];
    i := start;
    while i < |filename| && !(atDot && filename[i] == '.')
      invariant start <= i <= |filename| && PartEnd(filename, start, atDot) == PartEnd(filename, i, atDot)
      invariant i - start <= len && i - start <= |want|
      invariant forall k | 0 <= k < i - start :: IsValid(want[k]) && part[k] == Upcase(want[k])
      invariant forall k | i - start <= k < len :: part[k] == BLANK
    {
      assert filename[i] == want[i - start];
      if i - start >= len || !IsValid(filename[i]) { return false, part, i; }
      part[i - start] := Upcase(filename[i]);
      i := i + 1;
    }
    ok := true;
    assert part[..] == Padded(want, len);
  }

  /** _dir_entry_is_filename */
  method DirEntryIsFilename(name: seq<u8>, filename: string) returns (r: bool)
    requires |name| == BASENAME_LEN + EXTENSION_LEN && IsCString(filename)
    ensures r <==> IsNamed(name, filename)
  {
    var ok, basename, i := CopyPart(filename, 0, true, BASENAME_LEN);
    if !ok || (i == 0 && i < |filename|) { return false; }
    if i < |filename| { i := i + 1; }
    var extension;
    assert filename[i..|filename|] == Extension(filename);
    ok, extension, i := CopyPart(filename, i, false, EXTENSION_LEN);
    if !ok { return false; }
    r := Compare(name, filename, basename[..], extension[..]);
  }

  method Compare(name: seq<u8>, filename: string, basename: seq<u8>, extension: seq<u8>) returns (r: bool)
    requires |name| == BASENAME_LEN + EXTENSION_LEN && IsFilename(filename)
    requires basename == Padded(Basename(filename), BASENAME_LEN)
    requires extension == Padded(Extension(filename), EXTENSION_LEN)
    ensures r <==> IsNamed(name, filename)
  {
    var b := Strncmp(basename, name[..BASENAME_LEN], BASENAME_LEN);
    var e := Strncmp(extension, name[BASENAME_LEN..], EXTENSION_LEN);
    assert name[..BASENAME_LEN][..7] == name[..7] && name[BASENAME_LEN..][..2] == name[8..10];
    assert NameBytes(filename)[..7] == basename[..7] && NameBytes(filename)[8..10] == extension[..2];
    r := b == 0 && e == 0;
  }
}
