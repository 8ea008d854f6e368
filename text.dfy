/** ASCII case folding, the part of Python's `str.lower()` this model covers. */
module Text {

  predicate IsUpper(c: char) {
    'A' <= c <= 'Z'
  }

  /** `a` and `b` are the same letter in different case, or the same character. */
  predicate SameIgnoringCase(a: char, b: char) {
    a == b
    || (IsUpper(a) && b as int == a as int + 32)
    || (IsUpper(b) && a as int == b as int + 32)
  }

  /** The strings differ at most in the case of their ASCII letters. */
  predicate EqualIgnoringCase(a: string, b: string) {
    |a| == |b| && forall i :: 0 <= i < |a| ==> SameIgnoringCase(a[i], b[i])
  }

  function LowerChar(c: char): (r: char)
    ensures !IsUpper(r)
    ensures SameIgnoringCase(c, r)
  {
    if IsUpper(c) then (c as int + 32) as char else c
  }

  /** ASCII lower-casing, character by character. */
  function Lower(s: string): (r: string)
    ensures |r| == |s|
  {
    if s == [] then [] else Lower(s[..|s| - 1]) + [LowerChar(s[|s| - 1])]
  }

  /** Lower-casing keeps the length and folds each character on its own. */
  lemma {:induction false} LowerAt(s: string)
    ensures |Lower(s)| == |s|
    ensures forall i :: 0 <= i < |s| ==> Lower(s)[i] == LowerChar(s[i])
  {
    if s != [] {
      var n := |s| - 1;
      LowerAt(s[..n]);
      assert forall i :: 0 <= i < n ==> s[..n][i] == s[i];
    }
  }

  /** Lower-casing leaves no ASCII capital behind and changes nothing but the
      case of letters. */
  lemma LowerShape(s: string)
    ensures |Lower(s)| == |s|
    ensures forall i :: 0 <= i < |s| ==> !IsUpper(Lower(s)[i])
    ensures EqualIgnoringCase(s, Lower(s))
  {
    LowerAt(s);
  }

  lemma LowerCharAgrees(a: char, b: char)
    ensures LowerChar(a) == LowerChar(b) <==> SameIgnoringCase(a, b)
  {
  }

  /** Two strings fold to the same lower-case string exactly when they differ
      only in the case of their ASCII letters. */
  lemma LowerAgrees(a: string, b: string)
    ensures Lower(a) == Lower(b) <==> EqualIgnoringCase(a, b)
  {
    LowerAt(a);
    LowerAt(b);
    if Lower(a) == Lower(b) {
      forall i | 0 <= i < |a| ensures SameIgnoringCase(a[i], b[i]) {
        assert Lower(a)[i] == Lower(b)[i];
        LowerCharAgrees(a[i], b[i]);
      }
    }
    if EqualIgnoringCase(a, b) {
      forall i | 0 <= i < |a| ensures Lower(a)[i] == Lower(b)[i] {
        LowerCharAgrees(a[i], b[i]);
      }
    }
  }

  /** Lower-casing twice is lower-casing once. */
  lemma LowerIdempotent(s: string)
    ensures Lower(Lower(s)) == Lower(s)
  {
    LowerAt(s);
    LowerShape(s);
    LowerAt(Lower(s));
    forall i | 0 <= i < |s| ensures Lower(Lower(s))[i] == Lower(s)[i] {
      assert !IsUpper(Lower(s)[i]);
    }
  }
}
