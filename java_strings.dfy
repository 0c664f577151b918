/**
  Java strings as the pass sees them: sequences of UTF-16 code units. Their
  length, `substring`, `startsWith`, `endsWith` and `equals` all work unit
  by unit, so a character outside the Basic Multilingual Plane counts as two.
 */
module JavaStrings {

  /** One UTF-16 code unit, a Java `char`. */
  newtype u16 = x: int | 0 <= x < 0x1_0000

  type JString = seq<u16>

  /** The Java string of an ASCII literal: one code unit per character. */
  function Ascii(s: string): JString
    requires forall i :: 0 <= i < |s| ==> s[i] < 128 as char
  {
    seq(|s|, i requires 0 <= i < |s| => s[i] as int as u16)
  }

  predicate StartsWith(s: JString, prefix: JString) {
    prefix <= s
  }

  predicate EndsWith(s: JString, suffix: JString) {
    |suffix| <= |s| && s[|s| - |suffix|..] == suffix
  }

  lemma EndsWithConcat(s: JString, suffix: JString)
    ensures EndsWith(s + suffix, suffix)
  {
    assert (s + suffix)[|s|..] == suffix;
  }
}
