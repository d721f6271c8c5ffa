/** The release classifier `isStable`, which both page scripts define
    identically: the whole version string must match `^[\d\.\-]+$` with the
    case-insensitive flag. The pattern is written out as the recursion its
    `+` quantifier describes, one character at a time, and the case flag as an
    ASCII case fold applied before the class test. */
module Classifier {

  /** The characters of the class `[\d\.\-]`. */
  const StableChars: string := "0123456789.-"

  /** The class `[\d\.\-]`: an ASCII digit, a dot or a hyphen. */
  predicate InClass(c: char)
  {
    '0' <= c <= '9' || c == '.' || c == '-'
  }

  /** The case fold of the `i` flag on ASCII: a lower-case letter is
      compared as its upper-case form. */
  function Fold(c: char): char
  {
    if 'a' <= c <= 'z' then (c as int - 32) as char else c
  }

  /** One input character against the class under the `i` flag. */
  predicate ClassMatch(c: char)
  {
    InClass(Fold(c))
  }

  /** `/^[\d\.\-]+$/i.test(v)`: at least one character, the first in the
      class, and the rest (if any) matching the same pattern up to the end. */
  predicate IsStable(v: string)
  {
    |v| > 0 && ClassMatch(v[0]) && (|v| == 1 || IsStable(v[1..]))
  }

  /** The `i` flag changes nothing: no character folds into the class
      unless it is already in it. */
  lemma CaseFlagIrrelevant(c: char)
    ensures ClassMatch(c) <==> c in StableChars
  {
  }

  /** A version is stable exactly when it is non-empty and made only of
      digits, dots and hyphens. */
  lemma {:induction false} StableIff(v: string)
    ensures IsStable(v) <==> |v| > 0 && forall i :: 0 <= i < |v| ==> v[i] in StableChars
  {
    if |v| > 0 {
      CaseFlagIrrelevant(v[0]);
      if |v| > 1 {
        StableIff(v[1..]);
        assert forall i :: 1 <= i < |v| ==> v[i] == v[1..][i - 1];
      }
    }
  }

  /** Any version holding a letter (a qualifier such as RC1 or SNAPSHOT) is
      a snapshot. */
  lemma LetterMeansSnapshot(v: string, i: int)
    requires 0 <= i < |v|
    requires 'a' <= v[i] <= 'z' || 'A' <= v[i] <= 'Z'
    ensures !IsStable(v)
  {
    StableIff(v);
  }

  /** A stable version contains none of the characters that carry meaning
      in HTML or in a quoted literal. */
  lemma StableHasNoMarkup(v: string)
    requires IsStable(v)
    ensures forall c :: c in v ==> c !in "\"'<>&\\\n\r"
  {
    StableIff(v);
  }

  /** Worked examples of stable versions. */
  lemma StableExamples()
    ensures IsStable("1.2.3") && IsStable("2.0.0")
  {
    StableIff("1.2.3");
    StableIff("2.0.0");
  }

  /** Worked examples of snapshots: the empty version (a release without a
      `<version>` element) and versions with a qualifier. */
  lemma SnapshotExamples()
    ensures !IsStable("") && !IsStable("1.0-RC1") && !IsStable("2.1.0-SNAPSHOT")
  {
    LetterMeansSnapshot("1.0-RC1", 4);
    LetterMeansSnapshot("2.1.0-SNAPSHOT", 6);
  }
}
