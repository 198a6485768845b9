/** Case folding used by the conservation-status filter. Rust's
    `str::to_lowercase` is modelled on ASCII letters only: 'A'..'Z' map to
    'a'..'z' and every other character is kept. */
module Text {

  function LowerChar(c: char): (d: char)
    ensures 'A' <= c <= 'Z' ==> 'a' <= d <= 'z' && d as int - c as int == 32
    ensures !('A' <= c <= 'Z') ==> d == c
  {
    if 'A' <= c <= 'Z' then (c as int + 32) as char else c
  }

  /** The lowercase form of `s`. */
  function ToLower(s: string): (r: string)
    ensures |r| == |s|
    ensures forall i :: 0 <= i < |s| ==> r[i] == LowerChar(s[i])
  {
    seq(|s|, i requires 0 <= i < |s| => LowerChar(s[i]))
  }

  /** Two strings are equal up to the case of ASCII letters. */
  predicate SameIgnoringCase(a: string, b: string) {
    ToLower(a) == ToLower(b)
  }

  /** A lowercased string has no upper-case ASCII letter left, so lowering it
      again changes nothing. */
  lemma ToLowerIdempotent(s: string)
    ensures ToLower(ToLower(s)) == ToLower(s)
    ensures forall i :: 0 <= i < |s| ==> !('A' <= ToLower(s)[i] <= 'Z')
  {
    var l := ToLower(s);
    assert forall i :: 0 <= i < |s| ==> ToLower(l)[i] == l[i];
  }

  /** Any string matches its own lowercase form. */
  lemma MatchesOwnLowercase(s: string)
    ensures SameIgnoringCase(s, ToLower(s))
  {
    ToLowerIdempotent(s);
  }

  /** "Endangered" is found by "endangered" and by "ENDANGERED". */
  lemma EndangeredMatchesAnyCase()
    ensures SameIgnoringCase("Endangered", "endangered")
    ensures SameIgnoringCase("Endangered", "ENDANGERED")
    ensures !SameIgnoringCase("Endangered", "Vulnerable")
  {
    assert ToLower("Endangered") == "endangered";
    assert ToLower("ENDANGERED") == "endangered";
    assert ToLower("endangered") == "endangered";
    assert ToLower("Vulnerable")[0] == 'v';
  }
}
