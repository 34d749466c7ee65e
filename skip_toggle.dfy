/**
  The `SKIP_MIGRATIONS` environment toggle, read by both backends before any database access.
 */
module SkipToggle {
  import opened Results

  /** `char::to_ascii_lowercase`: only `A`..`Z` change. */
  function AsciiLower(c: char): char {
    if 'A' <= c <= 'Z' then (c as int + 32) as char else c
  }

  /** `str::eq_ignore_ascii_case`: same length, and equal character by character after ASCII lower-casing. */
  predicate EqIgnoreAsciiCase(a: string, b: string) {
    |a| == |b| && forall i :: 0 <= i < |a| ==> AsciiLower(a[i]) == AsciiLower(b[i])
  }

  /**
    Whether migrations are skipped, given the toggle's value (`None` when the variable is
    unset or not valid Unicode): "true" in any ASCII case, or exactly "1".
   */
  predicate SkipRequested(toggle: Option<string>)
    ensures SkipRequested(toggle) ==> toggle.Some? && (|toggle.value| == 1 || |toggle.value| == 4)
  {
    match toggle
    case None => false
    case Some(v) => EqIgnoreAsciiCase(v, "true") || v == "1"
  }

  /** A character lower-cases to a given letter exactly when it is that letter in either case. */
  lemma LowerIsLetter(c: char, lower: char, upper: char)
    requires 'a' <= lower <= 'z' && upper as int == lower as int - 32
    ensures AsciiLower(c) == lower <==> c == lower || c == upper
  {
  }

  /**
    The toggle skips exactly for "1" and for the sixteen spellings of "true" that differ only
    in letter case; an unset toggle never skips.
   */
  lemma SkipRequestedExactly(toggle: Option<string>)
    ensures SkipRequested(toggle) <==>
      toggle.Some? && (toggle.value == "1" ||
        (|toggle.value| == 4 && toggle.value[0] in "tT" && toggle.value[1] in "rR"
                             && toggle.value[2] in "uU" && toggle.value[3] in "eE"))
  {
    if toggle.Some? && |toggle.value| == 4 {
      var v := toggle.value;
      LowerIsLetter(v[0], 't', 'T');
      LowerIsLetter(v[1], 'r', 'R');
      LowerIsLetter(v[2], 'u', 'U');
      LowerIsLetter(v[3], 'e', 'E');
      assert EqIgnoreAsciiCase(v, "true") <==>
        AsciiLower(v[0]) == 't' && AsciiLower(v[1]) == 'r' && AsciiLower(v[2]) == 'u' && AsciiLower(v[3]) == 'e';
    }
  }

  /** The values the toggle is documented with. */
  lemma SkipExamples()
    ensures SkipRequested(Some("1")) && SkipRequested(Some("TRUE")) && SkipRequested(Some("true"))
    ensures SkipRequested(Some("True"))
    ensures !SkipRequested(None) && !SkipRequested(Some("false")) && !SkipRequested(Some("no"))
    ensures !SkipRequested(Some("TRUE1")) && !SkipRequested(Some("0")) && !SkipRequested(Some(""))
    ensures !SkipRequested(Some(" true")) && !SkipRequested(Some("01"))
  {
    SkipRequestedExactly(Some("TRUE"));
    SkipRequestedExactly(Some("True"));
  }
}
