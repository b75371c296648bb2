/** Character and string helpers with Python's `str` semantics, as far as the
    column resolver and the metadata scanner need them. */
module Text {

  /** Python's `str.isspace()`, which is also what `\s` matches in a `str`
      regular expression: the C0 separators, the ASCII blank, NEL, NBSP and
      the Unicode space separators. */
  predicate IsSpace(c: char) {
    || ('\t' <= c <= '\r')
    || ('\U{1C}' <= c <= '\U{1F}')
    || c == ' '
    || c == '\U{85}'
    || c == '\U{A0}'
    || c == '\U{1680}'
    || ('\U{2000}' <= c <= '\U{200A}')
    || c == '\U{2028}'
    || c == '\U{2029}'
    || c == '\U{202F}'
    || c == '\U{205F}'
    || c == '\U{3000}'
  }

  predicate IsDigit(c: char) {
    '0' <= c <= '9'
  }

  /** Lower-cases ASCII letters and leaves every other character alone. */
  function LowerChar(c: char): (r: char)
    ensures 'A' <= c <= 'Z' ==> 'a' <= r <= 'z'
    ensures !('A' <= c <= 'Z') ==> r == c
    ensures IsSpace(r) <==> IsSpace(c)
  {
    if 'A' <= c <= 'Z' then (c as int - 'A' as int + 'a' as int) as char else c
  }

  /** `str.lower()` on the ASCII letters. */
  function Lower(s: string): (r: string)
    ensures |r| == |s|
    ensures forall i :: 0 <= i < |s| ==> r[i] == LowerChar(s[i])
  {
    if |s| == 0 then [] else [LowerChar(s[0])] + Lower(s[1..])
  }

  /** Drops the leading whitespace. */
  function TrimStart(s: string): (r: string)
    ensures |r| <= |s| && r == s[|s| - |r|..]
    ensures forall i :: 0 <= i < |s| - |r| ==> IsSpace(s[i])
    ensures r == [] || !IsSpace(r[0])
  {
    if |s| > 0 && IsSpace(s[0]) then TrimStart(s[1..]) else s
  }

  /** Drops the trailing whitespace. */
  function TrimEnd(s: string): (r: string)
    ensures |r| <= |s| && r == s[..|r|]
    ensures forall i :: |r| <= i < |s| ==> IsSpace(s[i])
    ensures r == [] || !IsSpace(r[|r| - 1])
  {
    if |s| > 0 && IsSpace(s[|s| - 1]) then TrimEnd(s[..|s| - 1]) else s
  }

  /** `str.strip()` with no argument. */
  function Strip(s: string): string {
    TrimEnd(TrimStart(s))
  }

  /** The normal form both column helpers compare: `str(c).strip().lower()`. */
  function Normalize(s: string): string {
    Lower(Strip(s))
  }

  /** `sub` occurs in `s` starting at index `i`. */
  predicate OccursAt(s: string, sub: string, i: int) {
    0 <= i <= |s| - |sub| && s[i..i + |sub|] == sub
  }

  /** Python's `sub in s` for strings. */
  predicate Contains(s: string, sub: string) {
    exists i :: 0 <= i <= |s| - |sub| && OccursAt(s, sub, i)
  }

  /** `s.replace(" ", "")`: removes the ASCII blank only. */
  function RemoveBlanks(s: string): (r: string)
    ensures |r| <= |s|
    ensures ' ' !in r
    ensures forall c :: c in r <==> c in s && c != ' '
    ensures multiset(r) == multiset(s)[' ' := 0]
  {
    if |s| == 0 then []
    else
      assert s == [s[0]] + s[1..];
      if s[0] == ' ' then RemoveBlanks(s[1..])
      else [s[0]] + RemoveBlanks(s[1..])
  }

  /** Removing blanks works piece by piece, so the surviving characters keep
      their order. */
  lemma {:induction false} RemoveBlanksConcat(s: string, t: string)
    ensures RemoveBlanks(s + t) == RemoveBlanks(s) + RemoveBlanks(t)
  {
    if |s| > 0 {
      assert (s + t)[1..] == s[1..] + t;
      RemoveBlanksConcat(s[1..], t);
    } else {
      assert s + t == t;
    }
  }

  /** A single character survives exactly when it is not a blank. */
  lemma RemoveBlanksSingle(c: char)
    ensures RemoveBlanks([c]) == if c == ' ' then [] else [c]
  {
  }
}
