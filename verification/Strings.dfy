/** C strings, and the runs of characters the scanning loops of the boot loader pass over. */
module Strings {
  import opened Words

  predicate IsDigit(c: char) { '0' <= c <= '9' }

  // A string as C stores it: a NUL stands behind its last character and nowhere before.
  predicate IsCString(s: string) { forall i | 0 <= i < |s| :: s[i] != '\0' }

  // Reading behind the NUL is refused.
  function At(s: string, i: nat): char
    requires i <= |s|
  {
    if i < |s| then s[i] else '\0'
  }

  predicate All(s: string, p: char -> bool) { forall i | 0 <= i < |s| :: p(s[i]) }

  // Where the run of characters from i on ends.
  function RunEnd(s: string, i: nat, p: char -> bool): (j: nat)
    requires i <= |s|
    ensures i <= j <= |s| && All(s[i..j], p) && (j < |s| ==> !p(s[j]))
    decreases |s| - i
  {
    if i < |s| && p(s[i]) then
      var j := RunEnd(s, i + 1, p);
      assert s[i..j] == [s[i]] + s[i + 1..j];
      j
    else i
  }

  lemma {:induction false} RunEndUnique(s: string, i: nat, j: nat, p: char -> bool)
    requires i <= j <= |s| && All(s[i..j], p) && (j < |s| ==> !p(s[j]))
    ensures RunEnd(s, i, p) == j
    decreases j - i
  {
  }

  // The next c from i on.
  function Seek(s: string, i: nat, c: char): (j: Option<nat>)
    requires i <= |s|
    ensures match j case Some(k) => i <= k < |s| && s[k] == c && c !in s[i..k] case None => c !in s[i..]
    decreases |s| - i
  {
    if i == |s| then None
    else if s[i] == c then Some(i)
    else
      assert s[i..] == [s[i]] + s[i + 1..];
      var j := Seek(s, i + 1, c);
      assert j.Some? ==> s[i..j.value] == [s[i]] + s[i + 1..j.value];
      j
  }

  lemma {:induction false} SeekUnique(s: string, i: nat, k: nat, c: char)
    requires i <= k < |s| && s[k] == c && c !in s[i..k]
    ensures Seek(s, i, c) == Some(k)
    decreases k - i
  {
  }
}
