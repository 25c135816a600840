/** The few string operations the to-do programs apply to user input:
    Python's `str.strip()` (whitespace trimming) and `str.lower()`. */
module Text {

  /** The characters `str.isspace()` accepts, which are exactly the ones
      `str.strip()` with no argument removes. */
  predicate IsSpace(c: char) {
    Listed(c as int, SpaceCodes)
  }

  const SpaceCodes: seq<int> := [
    0x09, 0x0A, 0x0B, 0x0C, 0x0D, 0x1C, 0x1D, 0x1E, 0x1F, 0x20, 0x85, 0xA0, 0x1680,
    0x2000, 0x2001, 0x2002, 0x2003, 0x2004, 0x2005, 0x2006, 0x2007, 0x2008, 0x2009, 0x200A,
    0x2028, 0x2029, 0x202F, 0x205F, 0x3000]

  predicate Listed(n: int, codes: seq<int>) {
    |codes| > 0 && (codes[0] == n || Listed(n, codes[1..]))
  }

  /** Every character is whitespace (so `not s.strip()` holds in Python). */
  predicate Blank(s: string) {
    forall k :: 0 <= k < |s| ==> IsSpace(s[k])
  }

  /** The number of whitespace characters `s` starts with. */
  function LeadingSpaces(s: string): (n: nat)
    ensures n <= |s|
    ensures forall k :: 0 <= k < n ==> IsSpace(s[k])
    ensures n < |s| ==> !IsSpace(s[n])
  {
    if |s| > 0 && IsSpace(s[0]) then 1 + LeadingSpaces(s[1..]) else 0
  }

  /** The number of whitespace characters `s` ends with. */
  function TrailingSpaces(s: string): (n: nat)
    ensures n <= |s|
    ensures forall k :: |s| - n <= k < |s| ==> IsSpace(s[k])
    ensures n < |s| ==> !IsSpace(s[|s| - n - 1])
  {
    if |s| > 0 && IsSpace(s[|s| - 1]) then 1 + TrailingSpaces(s[..|s| - 1]) else 0
  }

  /** `s.strip()`: the slice of `s` left after dropping its leading and
      trailing whitespace. */
  function Strip(s: string): (r: string)
    ensures var i := LeadingSpaces(s);
      && i + |r| <= |s| && r == s[i..i + |r|]
      && forall k :: i + |r| <= k < |s| ==> IsSpace(s[k])
    ensures |r| > 0 ==> !IsSpace(r[0]) && !IsSpace(r[|r| - 1])
    ensures |r| == 0 <==> Blank(s)
  {
    var i := LeadingSpaces(s);
    var j := |s| - TrailingSpaces(s[i..]);
    StripBounds(s, i, j);
    s[i..j]
  }

  lemma {:induction false} StripBounds(s: string, i: nat, j: nat)
    requires i == LeadingSpaces(s) && j == |s| - TrailingSpaces(s[i..])
    ensures i <= j <= |s|
    ensures forall k :: j <= k < |s| ==> IsSpace(s[k])
    ensures i < j ==> !IsSpace(s[i]) && !IsSpace(s[j - 1])
    ensures i == j <==> Blank(s)
    ensures |s[i..j]| == j - i && s[i..j] == s[i..i + |s[i..j]|]
    ensures i < j ==> s[i..j][0] == s[i] && s[i..j][j - i - 1] == s[j - 1]
  {
    TrailOfSuffix(s, i);
    if i < j {
      var t := s[i..];
      assert s[j - 1] == t[|t| - TrailingSpaces(t) - 1];
    }
  }

  /** The trailing whitespace of a suffix is trailing whitespace of the whole. */
  lemma TrailOfSuffix(s: string, i: nat)
    requires i <= |s|
    ensures forall k :: |s| - TrailingSpaces(s[i..]) <= k < |s| ==> IsSpace(s[k])
  {
    var t := s[i..];
    forall k | |s| - TrailingSpaces(t) <= k < |s|
      ensures IsSpace(s[k])
    {
      assert s[k] == t[k - i];
    }
  }

  /** Stripping twice is the same as stripping once. */
  lemma {:induction false} StripIdempotent(s: string)
    ensures Strip(Strip(s)) == Strip(s)
  {
    var r := Strip(s);
    if |r| > 0 {
      assert LeadingSpaces(r) == 0;
      assert TrailingSpaces(r) == 0;
    }
  }

  /** `c.lower()` restricted to the ASCII letters; every other character is kept. */
  function LowerChar(c: char): (r: char)
    ensures 'A' <= c <= 'Z' ==> 'a' <= r <= 'z' && r as int - c as int == 32
    ensures !('A' <= c <= 'Z') ==> r == c
  {
    if 'A' <= c <= 'Z' then (c as int + 32) as char else c
  }

  /** `s.lower()` with ASCII case folding, character by character. */
  function AsciiLower(s: string): (r: string)
    ensures |r| == |s|
    ensures forall i :: 0 <= i < |s| ==> r[i] == LowerChar(s[i])
  {
    seq(|s|, i requires 0 <= i < |s| => LowerChar(s[i]))
  }
}
