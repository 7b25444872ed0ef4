/** Object identities rendered as strings: fields joined by '|'. */
module KeyText {

  const BAR := '|'

  predicate BarFree(s: string) {
    BAR !in s
  }

  function Join2(a: string, b: string): string {
    a + [BAR] + b
  }

  /** The first field ends at the first bar, so a bar-free first field can be read back. */
  lemma JoinInjective(a: string, x: string, b: string, y: string)
    requires BarFree(a) && BarFree(b) && Join2(a, x) == Join2(b, y)
    ensures a == b && x == y
  {
    var s, t := Join2(a, x), Join2(b, y);
    assert s[|a|] == BAR && t[|b|] == BAR;
    assert forall i :: 0 <= i < |a| ==> s[i] == a[i];
    assert forall i :: 0 <= i < |b| ==> t[i] == b[i];
    assert |a| == |b|;
    assert a == s[..|a|] && b == t[..|b|];
    assert x == s[|a| + 1..] && y == t[|b| + 1..];
  }
}
