/**
 * Kotlin's `String.contains(other, ignoreCase = true)`, which the search
 * field uses. The case mapping is restricted to ASCII letters; within that
 * range it is the comparison Kotlin (and Java's `regionMatches`) makes:
 * two characters are equal ignoring case when they are equal, when their
 * upper-case forms are equal, or when the lower-case forms of their
 * upper-case forms are equal.
 */
module Text {

  /** `Char.uppercaseChar()`, on ASCII letters. */
  function Upper(c: char): char
  {
    if 'a' <= c <= 'z' then (c as int - 32) as char else c
  }

  /** `Char.lowercaseChar()`, on ASCII letters. */
  function Lower(c: char): char
  {
    if 'A' <= c <= 'Z' then (c as int + 32) as char else c
  }

  /** `Char.equals(other, ignoreCase = true)`. */
  predicate CharEqualsIgnoreCase(a: char, b: char)
  {
    a == b || Upper(a) == Upper(b) || Lower(Upper(a)) == Lower(Upper(b))
  }

  /**
   * What "ignoring case" means here: two characters are equal ignoring case
   * exactly when their lower-case forms are equal. (Lower-casing the
   * upper-case form of a character gives its lower-case form.)
   */
  lemma CharEqualsIgnoreCaseSpec(a: char, b: char)
    ensures CharEqualsIgnoreCase(a, b) <==> Lower(a) == Lower(b)
  {
  }

  /** `other` occurs in `text` at `offset`, ignoring case (`regionMatches`). */
  predicate RegionMatchesIgnoreCase(text: string, offset: nat, other: string)
  {
    offset + |other| <= |text| &&
    forall k :: 0 <= k < |other| ==> CharEqualsIgnoreCase(text[offset + k], other[k])
  }

  /**
   * `indexOf(other, from, ignoreCase = true)`: the first offset at or after
   * `from` where `other` occurs in `text` ignoring case, or -1.
   */
  function IndexOfIgnoreCase(text: string, other: string, from: nat): (r: int)
    decreases |text| + 1 - from
    ensures r == -1 || (from <= r && RegionMatchesIgnoreCase(text, r, other))
    ensures r == -1 <==> forall i :: from <= i <= |text| ==> !RegionMatchesIgnoreCase(text, i, other)
    ensures r != -1 ==> forall i :: from <= i < r ==> !RegionMatchesIgnoreCase(text, i, other)
  {
    if from > |text| then -1
    else if RegionMatchesIgnoreCase(text, from, other) then from
    else IndexOfIgnoreCase(text, other, from + 1)
  }

  /** `text.contains(other, ignoreCase = true)`. */
  predicate ContainsIgnoreCase(text: string, other: string)
  {
    IndexOfIgnoreCase(text, other, 0) >= 0
  }

  /** other occurs somewhere in text, ignoring case. */
  ghost predicate OccursIgnoreCase(text: string, other: string)
  {
    exists i :: 0 <= i <= |text| && RegionMatchesIgnoreCase(text, i, other)
  }

  /** contains holds exactly when other occurs somewhere in text, ignoring case. */
  lemma ContainsIgnoreCaseSpec(text: string, other: string)
    ensures ContainsIgnoreCase(text, other) <==> OccursIgnoreCase(text, other)
  {
  }

  /** Upper-casing one side does not change the comparison. */
  lemma CharEqualsIgnoresUpper(a: char, b: char)
    ensures CharEqualsIgnoreCase(a, Upper(b)) == CharEqualsIgnoreCase(a, b)
  {
  }

  /**
   * `String.uppercase()`, on ASCII letters. The app never calls it; it is
   * here to state that the search ignores the case of its inputs.
   */
  function UpperAll(s: string): (r: string)
    ensures |r| == |s|
    ensures forall k :: 0 <= k < |s| ==> r[k] == Upper(s[k])
  {
    if s == [] then [] else [Upper(s[0])] + UpperAll(s[1..])
  }

  /** Searching for the upper-case form of a text finds the same occurrences. */
  lemma {:induction false} ContainsIgnoresCaseOfQuery(text: string, other: string)
    ensures ContainsIgnoreCase(text, UpperAll(other)) == ContainsIgnoreCase(text, other)
  {
    var up := UpperAll(other);
    forall i | 0 <= i <= |text|
      ensures RegionMatchesIgnoreCase(text, i, up) == RegionMatchesIgnoreCase(text, i, other)
    {
      forall k | 0 <= k < |other| && i + k < |text|
        ensures CharEqualsIgnoreCase(text[i + k], up[k]) == CharEqualsIgnoreCase(text[i + k], other[k])
      {
        CharEqualsIgnoresUpper(text[i + k], other[k]);
      }
    }
    ContainsIgnoreCaseSpec(text, up);
    ContainsIgnoreCaseSpec(text, other);
  }

  /** Upper-casing the searched text does not change whether other occurs in it. */
  lemma {:induction false} ContainsIgnoresCaseOfText(text: string, other: string)
    ensures ContainsIgnoreCase(UpperAll(text), other) == ContainsIgnoreCase(text, other)
  {
    var up := UpperAll(text);
    forall i | 0 <= i <= |text|
      ensures RegionMatchesIgnoreCase(up, i, other) == RegionMatchesIgnoreCase(text, i, other)
    {
      forall k | 0 <= k < |other| && i + k < |text|
        ensures CharEqualsIgnoreCase(up[i + k], other[k]) == CharEqualsIgnoreCase(text[i + k], other[k])
      {
        CharEqualsIgnoreCaseSpec(up[i + k], other[k]);
        CharEqualsIgnoreCaseSpec(text[i + k], other[k]);
      }
    }
    ContainsIgnoreCaseSpec(up, other);
    ContainsIgnoreCaseSpec(text, other);
  }
}
