/** C strings, read up to their NUL. */
module CText {
  /** A C string: no NUL before its end, and short enough to lie in memory. */
  type CString = s: string | '\0' !in s && |s| < 0x8000_0000_0000_0000

  /** Reading one character; at the end of the string it is the NUL. */
  function At(s: string, i: nat): char
    requires i <= |s|
  {
    if i < |s| then s[i] else '\0'
  }

  /** A buffer with its NUL, read as a C string: what lies before the first NUL. */
  function UpToNul(s: string): (c: string)
    ensures c <= s && '\0' !in c
    ensures |c| < |s| ==> s[|c|] == '\0'
  {
    if s == "" || s[0] == '\0' then "" else [s[0]] + UpToNul(s[1..])
  }

  /** isspace in the C locale. */
  predicate IsSpace(c: char) { c == ' ' || '\t' <= c <= '\r' }

  function SpacesEnd(s: string, i: nat): (j: nat)
    requires i <= |s|
    ensures i <= j <= |s|
    ensures forall k :: i <= k < j ==> IsSpace(s[k])
    ensures j < |s| ==> !IsSpace(s[j])
    decreases |s| - i
  {
    if i < |s| && IsSpace(s[i]) then SpacesEnd(s, i + 1) else i
  }

  /** The six characters of white space in the C locale. */
  const BLANKS: string := " \t\n\U{0b}\U{0c}\r"

  predicate IsBlank(s: string) { forall k :: 0 <= k < |s| ==> s[k] in BLANKS }

  lemma BlankIsSpace(c: char)
    ensures c in BLANKS <==> IsSpace(c)
  {
  }

  lemma {:induction false} SpacesEndAt(s: string, i: nat, j: nat)
    requires i <= j <= |s| && (forall k :: i <= k < j ==> IsSpace(s[k])) && (j < |s| ==> !IsSpace(s[j]))
    ensures SpacesEnd(s, i) == j
    decreases j - i
  {
    if i < j {
      SpacesEndAt(s, i + 1, j);
    }
  }
}
