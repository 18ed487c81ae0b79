/**
 * Python's `<` on tuples and on strings: the first position at which the
 * elements differ (by `==`) decides, by the elements' own `<`; when one
 * sequence is a prefix of the other, the shorter one comes first.
 */
module Lexicographic {

  function LexLt<T(==)>(a: seq<T>, b: seq<T>, lt: (T, T) -> bool): bool
    decreases |a|
  {
    if a == [] then b != []
    else if b == [] then false
    else if a[0] == b[0] then LexLt(a[1..], b[1..], lt)
    else lt(a[0], b[0])
  }

  ghost predicate Asymmetric<T(!new)>(lt: (T, T) -> bool) {
    forall x, y :: lt(x, y) ==> !lt(y, x)
  }

  ghost predicate Transitive<T(!new)>(lt: (T, T) -> bool) {
    forall x, y, z :: lt(x, y) && lt(y, z) ==> lt(x, z)
  }

  ghost predicate Trichotomous<T(!new)>(lt: (T, T) -> bool) {
    forall x, y :: x != y ==> lt(x, y) || lt(y, x)
  }

  ghost predicate StrictTotalOrder<T(!new)>(lt: (T, T) -> bool) {
    Asymmetric(lt) && Transitive(lt) && Trichotomous(lt)
  }

  lemma {:induction false} LexAsymmetric<T(!new)>(a: seq<T>, b: seq<T>, lt: (T, T) -> bool)
    requires Asymmetric(lt)
    ensures LexLt(a, b, lt) ==> !LexLt(b, a, lt)
    decreases |a|
  {
    if a != [] && b != [] && a[0] == b[0] {
      LexAsymmetric(a[1..], b[1..], lt);
    }
  }

  lemma {:induction false} LexTransitive<T(!new)>(a: seq<T>, b: seq<T>, c: seq<T>, lt: (T, T) -> bool)
    requires Asymmetric(lt) && Transitive(lt)
    ensures LexLt(a, b, lt) && LexLt(b, c, lt) ==> LexLt(a, c, lt)
    decreases |a|
  {
    if a != [] && b != [] && c != [] && a[0] == b[0] && b[0] == c[0] {
      LexTransitive(a[1..], b[1..], c[1..], lt);
    }
  }

  lemma {:induction false} LexTrichotomous<T(!new)>(a: seq<T>, b: seq<T>, lt: (T, T) -> bool)
    requires Trichotomous(lt)
    ensures a != b ==> LexLt(a, b, lt) || LexLt(b, a, lt)
    decreases |a|
  {
    if a != [] && b != [] && a[0] == b[0] {
      assert a == [a[0]] + a[1..] && b == [b[0]] + b[1..];
      LexTrichotomous(a[1..], b[1..], lt);
    }
  }

  /** The lexicographic extension of a strict total order is one. */
  lemma LexOrder<T(!new)>(lt: (T, T) -> bool)
    requires StrictTotalOrder(lt)
    ensures forall a: seq<T>, b: seq<T> :: LexLt(a, b, lt) ==> !LexLt(b, a, lt)
    ensures forall a: seq<T>, b: seq<T>, c: seq<T> :: LexLt(a, b, lt) && LexLt(b, c, lt) ==> LexLt(a, c, lt)
    ensures forall a: seq<T>, b: seq<T> :: a != b ==> LexLt(a, b, lt) || LexLt(b, a, lt)
  {
    forall a: seq<T>, b: seq<T> ensures LexLt(a, b, lt) ==> !LexLt(b, a, lt) {
      LexAsymmetric(a, b, lt);
    }
    forall a: seq<T>, b: seq<T>, c: seq<T> ensures LexLt(a, b, lt) && LexLt(b, c, lt) ==> LexLt(a, c, lt) {
      LexTransitive(a, b, c, lt);
    }
    forall a: seq<T>, b: seq<T> ensures a != b ==> LexLt(a, b, lt) || LexLt(b, a, lt) {
      LexTrichotomous(a, b, lt);
    }
  }

  /** A common prefix never decides the comparison. */
  lemma {:induction false} LexCommonPrefix<T>(k: seq<T>, a: seq<T>, b: seq<T>, lt: (T, T) -> bool)
    ensures LexLt(k + a, k + b, lt) == LexLt(a, b, lt)
    decreases |k|
  {
    if k != [] {
      assert (k + a)[1..] == k[1..] + a && (k + b)[1..] == k[1..] + b;
      LexCommonPrefix(k[1..], a, b, lt);
    } else {
      assert k + a == a && k + b == b;
    }
  }
}
