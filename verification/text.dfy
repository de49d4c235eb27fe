/** Prefix and suffix tests on strings, and how they split over concatenation. */
module Text {

  /** `s` starts with `prefix`. */
  predicate StartsWith(s: string, prefix: string) {
    |prefix| <= |s| && s[..|prefix|] == prefix
  }

  /** `s` ends with `suffix`. */
  predicate EndsWith(s: string, suffix: string) {
    |suffix| <= |s| && s[|s| - |suffix|..] == suffix
  }

  /** No character of `s` is a dot. */
  predicate NoDot(s: string) {
    forall i :: 0 <= i < |s| ==> s[i] != '.'
  }

  /** Ending with `a + b` is ending with `b`, and with `a` once `b` is cut off. */
  lemma EndsWithConcat(s: string, a: string, b: string)
    ensures EndsWith(s, a + b) <==> EndsWith(s, b) && EndsWith(s[..|s| - |b|], a)
  {
    if EndsWith(s, a + b) {
      assert s[|s| - |b|..] == (a + b)[|a|..];
      assert s[..|s| - |b|][|s| - |b| - |a|..] == (a + b)[..|a|];
    }
    if EndsWith(s, b) && EndsWith(s[..|s| - |b|], a) {
      var t := s[..|s| - |b|];
      assert s[|s| - |a| - |b|..] == t[|t| - |a|..] + s[|s| - |b|..];
    }
  }

  /** The parts of a four-part concatenation: it starts with the first and holds the third between the second and the fourth. */
  lemma ConcatParts(a: string, b: string, c: string, d: string)
    ensures var s := a + b + c + d;
      && |s| == |a| + |b| + |c| + |d|
      && StartsWith(s, a)
      && s[|a| + |b|..|s| - |d|] == c
  {
    var s := a + b + c + d;
    assert s[..|a|] == a;
    assert s == (a + b) + c + d;
  }
}
