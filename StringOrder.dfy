/**
  JavaScript's relational `<` on two strings: lexicographic comparison,
  character by character, where a proper prefix is smaller.
  The lemmas show that it is a strict total order.
 */
module StringOrder {

  /**
    A proper prefix is smaller, a string is never smaller than one of its own
    prefixes, and otherwise the first position where the two differ decides.
   */
  predicate StrLess(a: string, b: string): (less: bool)
    ensures |a| < |b| && a == b[..|a|] ==> less
    ensures |b| <= |a| && b == a[..|b|] ==> !less
    ensures forall k :: 0 <= k < |a| && k < |b| && a[..k] == b[..k] && a[k] != b[k] ==> (less <==> a[k] < b[k])
  {
    if a == [] then b != []
    else if b == [] then false
    else
      assert forall k :: 0 < k <= |a| && k <= |b| && a[..k] == b[..k] ==>
               a[0] == b[0] && a[1..][..k - 1] == b[1..][..k - 1];
      a[0] < b[0] || (a[0] == b[0] && StrLess(a[1..], b[1..]))
  }

  lemma {:induction false} StrLessIrreflexive(a: string)
    ensures !StrLess(a, a)
  {
    if a != [] {
      StrLessIrreflexive(a[1..]);
    }
  }

  lemma {:induction false} StrLessTransitive(a: string, b: string, c: string)
    requires StrLess(a, b) && StrLess(b, c)
    ensures StrLess(a, c)
  {
    if a != [] && a[0] == b[0] && b[0] == c[0] {
      StrLessTransitive(a[1..], b[1..], c[1..]);
    }
  }

  lemma StrLessAsymmetric(a: string, b: string)
    requires StrLess(a, b)
    ensures !StrLess(b, a)
  {
    if StrLess(b, a) {
      StrLessTransitive(a, b, a);
      StrLessIrreflexive(a);
    }
  }

  lemma {:induction false} StrLessTotal(a: string, b: string)
    requires a != b
    ensures StrLess(a, b) || StrLess(b, a)
  {
    if a != [] && b != [] && a[0] == b[0] {
      assert a == [a[0]] + a[1..] && b == [b[0]] + b[1..];
      StrLessTotal(a[1..], b[1..]);
    }
  }
}
