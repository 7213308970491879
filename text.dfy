/** Character and string helpers shared by the rule engines: the case fold behind the
    repositories' ignore-case queries, and the decimal rendering of identifiers that the
    error messages embed. */
module Text {

  /** ASCII upper-casing of one character; every other character is left as it is. */
  function UpperChar(c: char): char
  {
    if 'a' <= c <= 'z' then (c as int - 32) as char else c
  }

  /** The fold applied to both sides of an ignore-case comparison
      (a derived query `...IgnoreCase` compares `upper(column)` with `upper(argument)`). */
  function Fold(s: string): (r: string)
    ensures |r| == |s|
    ensures forall i :: 0 <= i < |s| ==> r[i] == UpperChar(s[i])
  {
    if s == [] then [] else [UpperChar(s[0])] + Fold(s[1..])
  }

  /** Two strings are equal ignoring case, character by character. */
  predicate SameIgnoringCase(a: string, b: string)
  {
    |a| == |b| && forall i :: 0 <= i < |a| ==> UpperChar(a[i]) == UpperChar(b[i])
  }

  /** The fold identifies exactly the strings that are equal ignoring case. */
  lemma FoldEqualIff(a: string, b: string)
    ensures Fold(a) == Fold(b) <==> SameIgnoringCase(a, b)
  {
    if SameIgnoringCase(a, b) {
      assert forall i :: 0 <= i < |a| ==> Fold(a)[i] == Fold(b)[i];
    }
    if Fold(a) == Fold(b) {
      assert forall i :: 0 <= i < |a| ==> UpperChar(a[i]) == Fold(a)[i] == Fold(b)[i] == UpperChar(b[i]);
    }
  }

  /** `FoldEqualIff` for one fixed right-hand side and every left-hand side. */
  lemma FoldEqualsIffSame(b: string)
    ensures forall a :: Fold(a) == Fold(b) <==> SameIgnoringCase(a, b)
  {
    forall a
      ensures Fold(a) == Fold(b) <==> SameIgnoringCase(a, b)
    {
      FoldEqualIff(a, b);
    }
  }

  /** Folding twice is folding once. */
  lemma FoldIdempotent(s: string)
    ensures Fold(Fold(s)) == Fold(s)
  {
    assert forall i :: 0 <= i < |s| ==> Fold(Fold(s))[i] == Fold(s)[i];
  }

  function DigitChar(d: int): char
    requires 0 <= d < 10
  {
    "0123456789"[d]
  }

  function NatToString(n: nat): string
  {
    if n < 10 then [DigitChar(n)] else NatToString(n / 10) + [DigitChar(n % 10)]
  }

  /** Decimal rendering of an identifier, as string concatenation renders a number. */
  function IntToString(n: int): string
  {
    if n < 0 then "-" + NatToString(-n) else NatToString(n)
  }
}
