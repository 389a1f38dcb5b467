/**
 * The JavaScript string operations the activity pipeline relies on:
 * `trim`, `toLowerCase`, `includes` and `split(" ")[0]`.
 * Strings are sequences of Unicode scalar values (not UTF-16 code units).
 */
module JsString {

  /** The characters ECMAScript's `String.prototype.trim` removes:
      the WhiteSpace and LineTerminator productions. */
  const WhiteSpace: set<char> := {
    '\t', '\n', '\U{000B}', '\U{000C}', '\r', ' ', '\U{00A0}', '\U{1680}',
    '\U{2000}', '\U{2001}', '\U{2002}', '\U{2003}', '\U{2004}', '\U{2005}',
    '\U{2006}', '\U{2007}', '\U{2008}', '\U{2009}', '\U{200A}',
    '\U{2028}', '\U{2029}', '\U{202F}', '\U{205F}', '\U{3000}', '\U{FEFF}'
  }

  predicate IsWhiteSpace(c: char) {
    c in WhiteSpace
  }

  /** Every character of `s[lo..hi]` is white space. */
  ghost predicate WhiteSpaceBetween(s: string, lo: int, hi: int) {
    forall k :: lo <= k < hi && 0 <= k < |s| ==> IsWhiteSpace(s[k])
  }

  ghost predicate AllWhiteSpace(s: string) {
    WhiteSpaceBetween(s, 0, |s|)
  }

  /** The first position at or after `i` that does not hold white space
      (or `|s|`): skips the leading white space of `s[i..]`. */
  function SkipWhiteSpace(s: string, i: nat): (n: nat)
    requires i <= |s|
    ensures i <= n <= |s|
    ensures WhiteSpaceBetween(s, i, n)
    ensures n < |s| ==> !IsWhiteSpace(s[n])
    decreases |s| - i
  {
    if i < |s| && IsWhiteSpace(s[i]) then SkipWhiteSpace(s, i + 1) else i
  }

  /** The smallest `m` in `lo..j` such that `s[m..j]` is all white space:
      backs over the trailing white space of `s[lo..j]`. */
  function BackOverWhiteSpace(s: string, lo: nat, j: nat): (m: nat)
    requires lo <= j <= |s|
    ensures lo <= m <= j
    ensures WhiteSpaceBetween(s, m, j)
    ensures m > lo ==> !IsWhiteSpace(s[m - 1])
  {
    if j > lo && IsWhiteSpace(s[j - 1]) then BackOverWhiteSpace(s, lo, j - 1) else j
  }

  /** `r` is `s` with the white space `s[..start]` and `s[start + |r|..]` cut off. */
  ghost predicate TrimmedAt(s: string, r: string, start: nat) {
    && start + |r| <= |s|
    && s[start..start + |r|] == r
    && WhiteSpaceBetween(s, 0, start)
    && WhiteSpaceBetween(s, start + |r|, |s|)
  }

  /** `String.prototype.trim`: a slice of `s`, surrounded in `s` by white
      space only, that neither starts nor ends with white space. */
  function Trim(s: string): (r: string)
    ensures TrimmedAt(s, r, SkipWhiteSpace(s, 0))
    ensures r != [] ==> !IsWhiteSpace(r[0]) && !IsWhiteSpace(r[|r| - 1])
  {
    var lo := SkipWhiteSpace(s, 0);
    s[lo..BackOverWhiteSpace(s, lo, |s|)]
  }

  /** Trimming gives the empty string exactly when the input is all white space. */
  lemma TrimEmptyIff(s: string)
    ensures Trim(s) == [] <==> AllWhiteSpace(s)
  {
    var lo := SkipWhiteSpace(s, 0);
    if AllWhiteSpace(s) {
      assert lo == |s|;
    }
  }

  /** Trimming twice is trimming once. */
  lemma TrimIdempotent(s: string)
    ensures Trim(Trim(s)) == Trim(s)
  {
    var r := Trim(s);
    if r != [] {
      assert SkipWhiteSpace(r, 0) == 0;
      assert BackOverWhiteSpace(r, 0, |r|) == |r|;
    }
  }

  /** ASCII case folding of one character. */
  function LowerChar(c: char): (d: char)
    ensures 'A' <= c <= 'Z' ==> d as int == c as int + 32
    ensures !('A' <= c <= 'Z') ==> d == c
  {
    if 'A' <= c <= 'Z' then (c as int + 32) as char else c
  }

  /** `String.prototype.toLowerCase`, restricted to ASCII letters: the same
      length, every upper-case ASCII letter replaced by its lower-case form,
      every other character kept. */
  function ToLowerCase(s: string): (r: string)
    ensures |r| == |s|
    ensures forall i :: 0 <= i < |r| ==> !('A' <= r[i] <= 'Z')
    ensures forall i :: 0 <= i < |s| && !('A' <= s[i] <= 'Z') ==> r[i] == s[i]
    ensures forall i :: 0 <= i < |s| ==> r[i] == LowerChar(s[i])
  {
    seq(|s|, i requires 0 <= i < |s| => LowerChar(s[i]))
  }

  /** Lower-casing twice is lower-casing once. */
  lemma ToLowerCaseIdempotent(s: string)
    ensures ToLowerCase(ToLowerCase(s)) == ToLowerCase(s)
  {
    var r := ToLowerCase(s);
    assert forall i :: 0 <= i < |r| ==> LowerChar(r[i]) == r[i];
  }

  /** `needle` occurs in `hay` at position `i`. */
  ghost predicate OccursAt(hay: string, needle: string, i: nat) {
    i + |needle| <= |hay| && hay[i..i + |needle|] == needle
  }

  predicate StartsWith(s: string, prefix: string) {
    |prefix| <= |s| && s[..|prefix|] == prefix
  }

  /** `String.prototype.includes`, searching from the left. */
  predicate Includes(hay: string, needle: string) {
    StartsWith(hay, needle) || (hay != [] && Includes(hay[1..], needle))
  }

  /** `Includes` holds exactly when `needle` occurs somewhere in `hay`. */
  lemma {:induction false} IncludesIff(hay: string, needle: string)
    ensures Includes(hay, needle) <==> exists i :: 0 <= i <= |hay| && OccursAt(hay, needle, i)
  {
    if StartsWith(hay, needle) {
      assert OccursAt(hay, needle, 0);
    } else if hay == [] {
      assert !OccursAt(hay, needle, 0);
    } else {
      IncludesIff(hay[1..], needle);
      if Includes(hay[1..], needle) {
        var i :| 0 <= i <= |hay[1..]| && OccursAt(hay[1..], needle, i);
        assert hay[1..][i..i + |needle|] == hay[i + 1..i + 1 + |needle|];
        assert OccursAt(hay, needle, i + 1);
      } else {
        forall i | 0 <= i <= |hay| ensures !OccursAt(hay, needle, i) {
          if i == 0 {
            assert !StartsWith(hay, needle);
          } else if i + |needle| <= |hay| {
            assert hay[1..][i - 1..i - 1 + |needle|] == hay[i..i + |needle|];
            assert !OccursAt(hay[1..], needle, i - 1);
          }
        }
      }
    }
  }

  /** `s.split(" ")[0]`: the part of `s` before its first space character,
      or all of `s` when it has no space. */
  function FirstSpaceToken(s: string): (r: string)
    ensures |r| <= |s| && r == s[..|r|]
    ensures ' ' !in r
    ensures |r| < |s| ==> s[|r|] == ' '
  {
    if s == [] || s[0] == ' ' then [] else [s[0]] + FirstSpaceToken(s[1..])
  }
}
