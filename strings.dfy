/** ASCII case conversion as done by ::toupper / ::tolower under the classic locale's ASCII mapping; the mappings of other locales are not modelled. */
module Strings {
  predicate IsAsciiUpper(c: char) { 'A' <= c <= 'Z' }
  predicate IsAsciiLower(c: char) { 'a' <= c <= 'z' }
  predicate IsAsciiLetter(c: char) { IsAsciiUpper(c) || IsAsciiLower(c) }

  /** ::toupper on one character */
  function UpperChar(c: char): (r: char)
    ensures !IsAsciiLower(r)
    ensures !IsAsciiLetter(c) ==> r == c
    ensures IsAsciiUpper(c) ==> r == c
    ensures IsAsciiLower(c) ==> IsAsciiUpper(r) && r as int + 32 == c as int
  {
    if IsAsciiLower(c) then (c as int - 32) as char else c
  }

  /** ::tolower on one character */
  function LowerChar(c: char): (r: char)
    ensures !IsAsciiUpper(r)
    ensures !IsAsciiLetter(c) ==> r == c
    ensures IsAsciiLower(c) ==> r == c
    ensures IsAsciiUpper(c) ==> IsAsciiLower(r) && r as int == c as int + 32
  {
    if IsAsciiUpper(c) then (c as int + 32) as char else c
  }

  /** The value to_upper_copy returns. */
  function Upper(s: string): (r: string)
    ensures |r| == |s|
  {
    seq(|s|, i requires 0 <= i < |s| => UpperChar(s[i]))
  }

  /** The value to_lower_copy returns. */
  function Lower(s: string): (r: string)
    ensures |r| == |s|
  {
    seq(|s|, i requires 0 <= i < |s| => LowerChar(s[i]))
  }

  lemma UpperIdempotent(s: string)
    ensures Upper(Upper(s)) == Upper(s)
  {
  }

  lemma LowerIdempotent(s: string)
    ensures Lower(Lower(s)) == Lower(s)
  {
  }

  lemma UpperOfConcat(a: string, b: string)
    ensures Upper(a + b) == Upper(a) + Upper(b)
  {
  }

  lemma LowerOfConcat(a: string, b: string)
    ensures Lower(a + b) == Lower(a) + Lower(b)
  {
  }

  /** to_upper_copy: copy the original, then overwrite each character in place. */
  method ToUpperCopy(original: string) returns (result: string)
    ensures |result| == |original|
    ensures forall i :: 0 <= i < |result| ==> !IsAsciiLower(result[i])
    ensures forall i :: 0 <= i < |result| && !IsAsciiLower(original[i]) ==> result[i] == original[i]
    ensures forall i :: 0 <= i < |result| && IsAsciiLower(original[i]) ==> result[i] as int + 32 == original[i] as int
    ensures result == Upper(original)
  {
    result := original;
    var i := 0;
    while i < |result|
      invariant 0 <= i <= |result| == |original|
      invariant forall k :: 0 <= k < i ==> result[k] == UpperChar(original[k])
      invariant forall k :: i <= k < |result| ==> result[k] == original[k]
    {
      result := result[i := UpperChar(result[i])];
      i := i + 1;
    }
  }

  /** to_lower_copy: copy the original, then overwrite each character in place. */
  method ToLowerCopy(original: string) returns (result: string)
    ensures |result| == |original|
    ensures forall i :: 0 <= i < |result| ==> !IsAsciiUpper(result[i])
    ensures forall i :: 0 <= i < |result| && !IsAsciiUpper(original[i]) ==> result[i] == original[i]
    ensures forall i :: 0 <= i < |result| && IsAsciiUpper(original[i]) ==> result[i] as int == original[i] as int + 32
    ensures result == Lower(original)
  {
    result := original;
    var i := 0;
    while i < |result|
      invariant 0 <= i <= |result| == |original|
      invariant forall k :: 0 <= k < i ==> result[k] == LowerChar(original[k])
      invariant forall k :: i <= k < |result| ==> result[k] == original[k]
    {
      result := result[i := LowerChar(result[i])];
      i := i + 1;
    }
  }

  /** Python's str.endswith */
  predicate EndsWith(s: string, suffix: string)
  {
    |suffix| <= |s| && s[|s| - |suffix|..] == suffix
  }

  predicate StartsWith(s: string, prefix: string)
  {
    |prefix| <= |s| && s[..|prefix|] == prefix
  }

  /** s.find(sub) != npos */
  predicate Contains(s: string, sub: string)
  {
    exists i :: 0 <= i <= |s| - |sub| && OccursAt(s, sub, i)
  }

  predicate OccursAt(s: string, sub: string, i: int)
  {
    0 <= i <= |s| - |sub| && s[i..i + |sub|] == sub
  }
}
