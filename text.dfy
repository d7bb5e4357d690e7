/** The two string normalisations the command loop applies to what it reads:
    stripping surrounding whitespace (`str.strip()`) and lower-casing
    (`str.lower()`), both over ASCII. */
module Text {

  /** The ASCII characters Python's `str.isspace` accepts: tab, line feed,
      vertical tab, form feed, carriage return, the four separators 0x1C-0x1F
      and the space. */
  predicate IsSpace(c: char)
  {
    (9 <= c as int <= 13) || (28 <= c as int <= 32)
  }

  /** The first index at or after `i` that does not hold whitespace, or `|s|`. */
  function SkipSpaces(s: string, i: nat): (r: nat)
    requires i <= |s|
    ensures i <= r <= |s|
    decreases |s| - i
  {
    if i < |s| && IsSpace(s[i]) then SkipSpaces(s, i + 1) else i
  }

  /** The end of `s[lo..j]` once its trailing whitespace is dropped. */
  function SkipSpacesBack(s: string, lo: nat, j: nat): (r: nat)
    requires lo <= j <= |s|
    ensures lo <= r <= j
    decreases j
  {
    if lo < j && IsSpace(s[j - 1]) then SkipSpacesBack(s, lo, j - 1) else j
  }

  /** `str.strip()`: `s` without its leading and trailing whitespace. */
  function Trim(s: string): (r: string)
  {
    var i := SkipSpaces(s, 0);
    s[i..SkipSpacesBack(s, i, |s|)]
  }

  /** `str.lower()` on one character: A-Z become a-z, all else is kept. */
  function LowerChar(c: char): (r: char)
  {
    if 'A' <= c <= 'Z' then (c as int + 32) as char else c
  }

  /** `str.lower()`, character by character. */
  function Lower(s: string): (r: string)
    ensures |r| == |s|
  {
    if s == [] then [] else [LowerChar(s[0])] + Lower(s[1..])
  }

  /** The normal form of a command word: stripped, then lower-cased. */
  function Normalize(s: string): (r: string)
  {
    Lower(Trim(s))
  }

  /** Forward skipping passes over whitespace only and stops at the first
      character that is not whitespace. */
  lemma {:induction false} SkipSpacesSpec(s: string, i: nat)
    requires i <= |s|
    decreases |s| - i
    ensures forall k :: i <= k < SkipSpaces(s, i) ==> IsSpace(s[k])
    ensures SkipSpaces(s, i) < |s| ==> !IsSpace(s[SkipSpaces(s, i)])
  {
    if i < |s| && IsSpace(s[i]) {
      SkipSpacesSpec(s, i + 1);
    }
  }

  /** Backward skipping passes over whitespace only and stops after the last
      character of `s[lo..j]` that is not whitespace. */
  lemma {:induction false} SkipSpacesBackSpec(s: string, lo: nat, j: nat)
    requires lo <= j <= |s|
    decreases j
    ensures forall k :: SkipSpacesBack(s, lo, j) <= k < j ==> IsSpace(s[k])
    ensures lo < SkipSpacesBack(s, lo, j) ==> !IsSpace(s[SkipSpacesBack(s, lo, j) - 1])
  {
    if lo < j && IsSpace(s[j - 1]) {
      SkipSpacesBackSpec(s, lo, j - 1);
    }
  }

  /** What stripping promises: the result is a contiguous part of `s`,
      everything cut off on either side is whitespace, and the result neither
      starts nor ends with whitespace. */
  lemma TrimSpec(s: string)
    ensures exists i, j ::
              && 0 <= i <= j <= |s| && Trim(s) == s[i..j]
              && (forall k :: 0 <= k < i ==> IsSpace(s[k]))
              && (forall k :: j <= k < |s| ==> IsSpace(s[k]))
    ensures Trim(s) != [] ==> !IsSpace(Trim(s)[0]) && !IsSpace(Trim(s)[|Trim(s)| - 1])
  {
    var i := SkipSpaces(s, 0);
    var j := SkipSpacesBack(s, i, |s|);
    SkipSpacesSpec(s, 0);
    SkipSpacesBackSpec(s, i, |s|);
    assert Trim(s) == s[i..j];
    assert 0 <= i <= j <= |s| && (forall k :: 0 <= k < i ==> IsSpace(s[k])) && (forall k :: j <= k < |s| ==> IsSpace(s[k]));
  }

  /** A string that neither starts nor ends with whitespace is its own strip. */
  lemma TrimWhenTrimmed(s: string)
    requires s != [] ==> !IsSpace(s[0]) && !IsSpace(s[|s| - 1])
    ensures Trim(s) == s
  {
  }

  /** Lower-casing works character by character. */
  lemma {:induction false} LowerSpec(s: string)
    ensures forall i :: 0 <= i < |s| ==> Lower(s)[i] == LowerChar(s[i])
  {
    if s != [] {
      LowerSpec(s[1..]);
    }
  }

  /** Stripping is idempotent: a stripped string has nothing left to strip. */
  lemma TrimIdempotent(s: string)
    ensures Trim(Trim(s)) == Trim(s)
  {
    TrimSpec(s);
    TrimWhenTrimmed(Trim(s));
  }

  /** Lower-casing is idempotent. */
  lemma LowerIdempotent(s: string)
    ensures Lower(Lower(s)) == Lower(s)
  {
  }

  /** Normalising is idempotent: lower-casing keeps whitespace and
      non-whitespace apart, so a normal form has nothing left to strip or
      lower-case. */
  lemma NormalizeIdempotent(s: string)
    ensures Normalize(Normalize(s)) == Normalize(s)
  {
    var t := Trim(s);
    var n := Lower(t);
    TrimSpec(s);
    LowerSpec(t);
    if n != [] {
      assert n[0] == LowerChar(t[0]) && n[|n| - 1] == LowerChar(t[|t| - 1]);
    }
    TrimWhenTrimmed(n);
    LowerIdempotent(t);
  }
}
