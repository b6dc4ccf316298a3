/**
  The string operations of the Python runtime that the core relies on:
  `str.isspace`, `str.lower`, `str.strip`, the `in` substring test, and the
  `lower().strip()` normalisation applied to symptom tokens.
*/
module Text {

  /** `c.isspace()` in Python: the characters of Unicode whitespace. */
  predicate IsSpace(c: char) {
    || ('\t' <= c <= '\r')
    || ('\U{1C}' <= c <= '\U{1F}')
    || c == ' '
    || c == '\U{85}'
    || c == '\U{A0}'
    || c == '\U{1680}'
    || ('\U{2000}' <= c <= '\U{200A}')
    || c == '\U{2028}'
    || c == '\U{2029}'
    || c == '\U{202F}'
    || c == '\U{205F}'
    || c == '\U{3000}'
  }

  predicate IsUpper(c: char) { 'A' <= c <= 'Z' }

  /** Lower-casing of one character, for the ASCII letters. */
  function LowerChar(c: char): (r: char)
    ensures !IsUpper(r)
    ensures IsSpace(r) == IsSpace(c)
    ensures !IsUpper(c) ==> r == c
  {
    if IsUpper(c) then (c as int + 32) as char else c
  }

  /**
    `s.lower()`: same length, no upper-case letter left, and a string
    without upper-case letters is returned unchanged.
  */
  function Lower(s: string): (r: string)
    ensures |r| == |s| && IsLower(r)
    ensures IsLower(s) ==> r == s
  {
    seq(|s|, i requires 0 <= i < |s| => LowerChar(s[i]))
  }

  predicate IsLower(s: string) {
    forall i :: 0 <= i < |s| ==> !IsUpper(s[i])
  }

  /** Every character of `s` is whitespace. */
  predicate AllSpace(s: string) {
    forall k | 0 <= k < |s| :: IsSpace(s[k])
  }

  /**
    `s.lstrip()`: a suffix of `s` that does not start with whitespace, and
    what it drops is whitespace.
  */
  function LStrip(s: string): (r: string)
    ensures |r| <= |s| && r == s[|s| - |r|..]
    ensures AllSpace(s[..|s| - |r|]) && (|r| > 0 ==> !IsSpace(r[0]))
  {
    if |s| > 0 && IsSpace(s[0]) then
      var t := s[1..];
      var r := LStrip(t);
      var a := |t| - |r|;
      assert t[a..] == s[a + 1..];
      assert AllSpace(s[..a + 1]) by {
        forall k | 0 <= k < a + 1 ensures IsSpace(s[k]) {
          if k > 0 {
            assert s[k] == t[..a][k - 1];
          }
        }
      }
      r
    else s
  }

  /**
    `s.rstrip()`: a prefix of `s` that does not end with whitespace, and
    what it drops is whitespace.
  */
  function RStrip(s: string): (r: string)
    ensures |r| <= |s| && r == s[..|r|]
    ensures AllSpace(s[|r|..]) && (|r| > 0 ==> !IsSpace(r[|r| - 1]))
  {
    if |s| > 0 && IsSpace(s[|s| - 1]) then
      var t := s[..|s| - 1];
      var r := RStrip(t);
      assert t[..|r|] == s[..|r|];
      assert s[|r|..] == t[|r|..] + [s[|s| - 1]];
      r
    else s
  }

  /** Neither end of `s` is whitespace. */
  predicate IsStripped(s: string) {
    |s| == 0 || (!IsSpace(s[0]) && !IsSpace(s[|s| - 1]))
  }

  /**
    `s.strip()`: neither end of the result is whitespace, and a string
    already in that form is returned unchanged.
  */
  function Strip(s: string): (r: string)
    ensures IsStripped(r)
    ensures IsStripped(s) ==> r == s
  {
    var t := LStrip(s);
    var r := RStrip(t);
    assert |r| > 0 ==> r[0] == t[0];
    r
  }

  /**
    `s.lower().strip()`, the form in which symptom tokens are looked up:
    it is a token, and a token is its own normal form, so normalising
    twice is normalising once.
  */
  function Normalise(s: string): (r: string)
    ensures IsToken(r)
    ensures IsToken(s) ==> r == s
  {
    var t := Strip(Lower(s));
    StripIsTrimmedSlice(Lower(s));
    assert IsLower(t);
    t
  }

  /** A lookup token: lower-case and trimmed. */
  predicate IsToken(s: string) {
    IsLower(s) && IsStripped(s)
  }

  /**
    `Strip(s)` is the slice of `s` between its first and last
    non-whitespace characters: what is removed is whitespace.
  */
  lemma StripIsTrimmedSlice(s: string)
    ensures exists a, b :: 0 <= a <= b <= |s| && Strip(s) == s[a..b] && AllSpace(s[..a]) && AllSpace(s[b..])
  {
    var t := LStrip(s);
    var a := |s| - |t|;
    var b := |RStrip(t)|;
    assert Strip(s) == s[a..a + b];
    assert s[a + b..] == t[b..];
    assert 0 <= a <= a + b <= |s| && AllSpace(s[..a]) && AllSpace(s[a + b..]);
  }

  /** Lower-casing and stripping commute (lower-casing never makes or removes whitespace). */
  lemma {:induction false} LowerStripCommute(s: string)
    ensures Lower(Strip(s)) == Strip(Lower(s))
  {
    LStripLower(s);
    RStripLower(LStrip(s));
  }

  lemma {:induction false} LStripLower(s: string)
    ensures Lower(LStrip(s)) == LStrip(Lower(s))
  {
    if |s| > 0 && IsSpace(s[0]) {
      assert Lower(s)[1..] == Lower(s[1..]);
      LStripLower(s[1..]);
    }
  }

  lemma {:induction false} RStripLower(s: string)
    ensures Lower(RStrip(s)) == RStrip(Lower(s))
  {
    if |s| > 0 && IsSpace(s[|s| - 1]) {
      assert Lower(s)[..|s| - 1] == Lower(s[..|s| - 1]);
      RStripLower(s[..|s| - 1]);
    }
  }

  /** Lower-casing twice is lower-casing once. */
  lemma LowerIdempotent(s: string)
    ensures Lower(Lower(s)) == Lower(s)
  {
  }

  predicate StartsWith(s: string, prefix: string) {
    |prefix| <= |s| && s[..|prefix|] == prefix
  }

  /** `needle in hay` for Python strings: `needle` occurs at some position of `hay`. */
  predicate Contains(hay: string, needle: string) {
    StartsWith(hay, needle) || (|hay| > 0 && Contains(hay[1..], needle))
  }
}
