/**
 * Python's `sorted(s, key=key)`: a stable sort that compares keys with `<`
 * only. It is written here as an insertion sort; under a strict weak order
 * every stable sort gives the same result, so this one stands for the
 * library's.
 */
module StableSort {
  import opened Lexicographic

  /** What `sorted` needs of `<`: asymmetric, transitive, and ties are transitive. */
  ghost predicate StrictWeakOrder<K(!new)>(lt: (K, K) -> bool) {
    && Asymmetric(lt)
    && Transitive(lt)
    && forall x, y, z :: lt(x, z) ==> lt(x, y) || lt(y, z)
  }

  lemma StrictTotalIsStrictWeak<K(!new)>(lt: (K, K) -> bool)
    requires StrictTotalOrder(lt)
    ensures StrictWeakOrder(lt)
  {
    forall x, y, z | lt(x, z) ensures lt(x, y) || lt(y, z) {
      if y != x && y != z && !lt(x, y) {
        assert lt(y, x);
      }
    }
  }

  /** Neither key is smaller than the other. */
  predicate Tied<K>(lt: (K, K) -> bool, a: K, b: K) {
    !lt(a, b) && !lt(b, a)
  }

  /** No element's key is smaller than its predecessor's. */
  predicate OrderedBy<T, K>(s: seq<T>, key: T -> K, lt: (K, K) -> bool) {
    forall i :: 0 < i < |s| ==> !lt(key(s[i]), key(s[i - 1]))
  }

  lemma OrderedTail<T, K>(s: seq<T>, key: T -> K, lt: (K, K) -> bool)
    requires s != [] && OrderedBy(s, key, lt)
    ensures OrderedBy(s[1..], key, lt)
  {
    forall i | 0 < i < |s[1..]| ensures !lt(key(s[1..][i]), key(s[1..][i - 1])) {
      assert s[1..][i] == s[i + 1] && s[1..][i - 1] == s[i];
    }
  }

  /** Puts `x` in front of the first element whose key is not smaller than x's. */
  function Insert<T, K>(x: T, s: seq<T>, key: T -> K, lt: (K, K) -> bool): (r: seq<T>)
    ensures multiset(r) == multiset(s) + multiset{x}
    ensures |r| == |s| + 1
    ensures r[0] == x || (s != [] && r[0] == s[0])
    decreases |s|
  {
    if s == [] || !lt(key(s[0]), key(x)) then [x] + s
    else
      assert s == [s[0]] + s[1..];
      [s[0]] + Insert(x, s[1..], key, lt)
  }

  function SortBy<T, K>(s: seq<T>, key: T -> K, lt: (K, K) -> bool): (r: seq<T>)
    ensures multiset(r) == multiset(s)
    ensures |r| == |s|
    decreases |s|
  {
    if s == [] then []
    else
      assert s == [s[0]] + s[1..];
      Insert(s[0], SortBy(s[1..], key, lt), key, lt)
  }

  lemma {:induction false} InsertOrdered<T, K(!new)>(x: T, s: seq<T>, key: T -> K, lt: (K, K) -> bool)
    requires StrictWeakOrder(lt)
    requires OrderedBy(s, key, lt)
    ensures OrderedBy(Insert(x, s, key, lt), key, lt)
    decreases |s|
  {
    if s != [] && lt(key(s[0]), key(x)) {
      OrderedTail(s, key, lt);
      InsertOrdered(x, s[1..], key, lt);
      var rest := Insert(x, s[1..], key, lt);
      var r := [s[0]] + rest;
      assert Insert(x, s, key, lt) == r;
      forall i | 0 < i < |r| ensures !lt(key(r[i]), key(r[i - 1])) {
        if i == 1 {
          assert r[1] == rest[0] && r[0] == s[0];
          if rest[0] != x {
            assert rest[0] == s[1];
          }
        } else {
          assert r[i] == rest[i - 1] && r[i - 1] == rest[i - 2];
        }
      }
    }
  }

  /** The output of `sorted` is in order. */
  lemma {:induction false} SortByOrdered<T, K(!new)>(s: seq<T>, key: T -> K, lt: (K, K) -> bool)
    requires StrictWeakOrder(lt)
    ensures OrderedBy(SortBy(s, key, lt), key, lt)
    decreases |s|
  {
    if s != [] {
      SortByOrdered(s[1..], key, lt);
      InsertOrdered(s[0], SortBy(s[1..], key, lt), key, lt);
    }
  }

  /** `sorted` returns its input unchanged exactly when the input is already in order. */
  lemma {:induction false} SortByFixesExactlyOrdered<T, K(!new)>(s: seq<T>, key: T -> K, lt: (K, K) -> bool)
    requires StrictWeakOrder(lt)
    ensures SortBy(s, key, lt) == s <==> OrderedBy(s, key, lt)
    decreases |s|
  {
    SortByOrdered(s, key, lt);
    if s != [] && OrderedBy(s, key, lt) {
      OrderedTail(s, key, lt);
      SortByFixesExactlyOrdered(s[1..], key, lt);
      assert SortBy(s[1..], key, lt) == s[1..];
      if |s| > 1 {
        assert !lt(key(s[1]), key(s[0]));
      }
      assert s == [s[0]] + s[1..];
    }
  }

  /** The elements of `s` whose keys tie with `k`, in their order in `s`. */
  function TiedWith<T, K>(s: seq<T>, key: T -> K, lt: (K, K) -> bool, k: K): seq<T>
    decreases |s|
  {
    if s == [] then [] else (if Tied(lt, key(s[0]), k) then [s[0]] else []) + TiedWith(s[1..], key, lt, k)
  }

  /** Keys on either side of a strict comparison cannot both tie with a third. */
  lemma NotBothTied<K(!new)>(lt: (K, K) -> bool, a: K, b: K, k: K)
    requires StrictWeakOrder(lt)
    requires lt(a, b)
    ensures !(Tied(lt, a, k) && Tied(lt, b, k))
  {
    assert lt(a, k) || lt(k, b);
  }

  lemma {:induction false} InsertTiedWith<T, K(!new)>(x: T, s: seq<T>, key: T -> K, lt: (K, K) -> bool, k: K)
    requires StrictWeakOrder(lt)
    requires OrderedBy(s, key, lt)
    ensures TiedWith(Insert(x, s, key, lt), key, lt, k)
         == (if Tied(lt, key(x), k) then [x] else []) + TiedWith(s, key, lt, k)
    decreases |s|
  {
    if s == [] || !lt(key(s[0]), key(x)) {
      assert ([x] + s)[1..] == s;
    } else {
      OrderedTail(s, key, lt);
      InsertTiedWith(x, s[1..], key, lt, k);
      var rest := Insert(x, s[1..], key, lt);
      assert ([s[0]] + rest)[1..] == rest;
      var first := if Tied(lt, key(s[0]), k) then [s[0]] else [];
      var mine := if Tied(lt, key(x), k) then [x] else [];
      var later := TiedWith(s[1..], key, lt, k);
      assert TiedWith(Insert(x, s, key, lt), key, lt, k) == first + (mine + later);
      assert TiedWith(s, key, lt, k) == first + later;
      NotBothTied(lt, key(s[0]), key(x), k);
      assert first == [] || mine == [];
      assert first + (mine + later) == mine + (first + later);
    }
  }

  /**
   * Stability: the elements whose keys tie with any one key keep their
   * relative order, so keys that tie never move past each other.
   */
  lemma {:induction false} SortByStable<T, K(!new)>(s: seq<T>, key: T -> K, lt: (K, K) -> bool, k: K)
    requires StrictWeakOrder(lt)
    ensures TiedWith(SortBy(s, key, lt), key, lt, k) == TiedWith(s, key, lt, k)
    decreases |s|
  {
    if s != [] {
      SortByStable(s[1..], key, lt, k);
      SortByOrdered(s[1..], key, lt);
      InsertTiedWith(s[0], SortBy(s[1..], key, lt), key, lt, k);
    }
  }

  /** `[f(x) for x in s]`. */
  function MapSeq<T, U>(f: T -> U, s: seq<T>): (r: seq<U>)
    ensures |r| == |s|
    ensures forall i :: 0 <= i < |s| ==> r[i] == f(s[i])
    decreases |s|
  {
    if s == [] then [] else [f(s[0])] + MapSeq(f, s[1..])
  }

  lemma {:induction false} InsertMapped<T, U, K>(f: T -> U, x: T, s: seq<T>, key: T -> K, fkey: U -> K, lt: (K, K) -> bool)
    requires forall y :: fkey(f(y)) == key(y)
    ensures Insert(f(x), MapSeq(f, s), fkey, lt) == MapSeq(f, Insert(x, s, key, lt))
    decreases |s|
  {
    if s != [] && lt(key(s[0]), key(x)) {
      InsertMapped(f, x, s[1..], key, fkey, lt);
      assert MapSeq(f, s)[1..] == MapSeq(f, s[1..]);
      assert ([s[0]] + Insert(x, s[1..], key, lt))[1..] == Insert(x, s[1..], key, lt);
    } else {
      assert ([x] + s)[1..] == s;
    }
  }

  /**
   * Mapping every element through `f` before or after sorting gives the
   * same sequence, when `f` leaves the sort key unchanged.
   */
  lemma {:induction false} SortByMapped<T, U, K>(f: T -> U, s: seq<T>, key: T -> K, fkey: U -> K, lt: (K, K) -> bool)
    requires forall y :: fkey(f(y)) == key(y)
    ensures SortBy(MapSeq(f, s), fkey, lt) == MapSeq(f, SortBy(s, key, lt))
    decreases |s|
  {
    if s != [] {
      SortByMapped(f, s[1..], key, fkey, lt);
      assert MapSeq(f, s)[1..] == MapSeq(f, s[1..]);
      InsertMapped(f, s[0], SortBy(s[1..], key, lt), key, fkey, lt);
    }
  }
}
