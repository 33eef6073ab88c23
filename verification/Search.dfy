/** First occurrence of a pattern, as the built-in `find` of byte strings computes it. */
module Search {
  import opened Bytes

  /** `pat` stands at position i of s. */
  predicate At(pat: bytes, s: bytes, i: int)
  {
    0 <= i && i + |pat| <= |s| && s[i..i + |pat|] == pat
  }

  ghost predicate Occurs(pat: bytes, s: bytes)
  {
    exists i :: At(pat, s, i)
  }

  ghost predicate FirstAt(pat: bytes, s: bytes, i: int)
  {
    At(pat, s, i) && forall j :: 0 <= j < i ==> !At(pat, s, j)
  }

  method Find(s: bytes, pat: bytes) returns (r: Option<nat>)
    ensures r.None? ==> !Occurs(pat, s)
    ensures r.Some? ==> FirstAt(pat, s, r.value)
  {
    var i := 0;
    while i + |pat| <= |s|
      invariant forall j :: 0 <= j < i ==> !At(pat, s, j)
    {
      if s[i..i + |pat|] == pat {
        return Some(i);
      }
      i := i + 1;
    }
    r := None;
  }

  lemma AtInPrefix(pat: bytes, s: bytes, more: bytes, i: int)
    requires i + |pat| <= |s|
    ensures At(pat, s + more, i) <==> At(pat, s, i)
  {
  }

  lemma FirstInPrefix(pat: bytes, s: bytes, more: bytes, i: int)
    requires FirstAt(pat, s, i)
    ensures FirstAt(pat, s + more, i)
  {
    forall j | 0 <= j <= i ensures At(pat, s + more, j) <==> At(pat, s, j) {
      AtInPrefix(pat, s, more, j);
    }
  }
}
