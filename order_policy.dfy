/**
 * The two key-order policies and their sort keys (`get_sorting_key`):
 * natural order on the whole key, and DNS-hierarchy order, which compares
 * the key's dot-separated labels root first, each label in natural order.
 */
module OrderPolicy {
  import opened Lexicographic
  import opened NatSort

  datatype Policy = Natural | DnsHierarchy

  /** Python's `s.split(sep)`: always at least one (possibly empty) part. */
  function Split(s: string, sep: char): (r: seq<string>)
    ensures |r| >= 1
    decreases |s|
  {
    if s == [] then [[]]
    else
      var rest := Split(s[1..], sep);
      if s[0] == sep then [[]] + rest else [[s[0]] + rest[0]] + rest[1..]
  }

  /** `sep.join(parts)`. */
  function JoinWith(parts: seq<string>, sep: char): string
    decreases |parts|
  {
    if parts == [] then [] else if |parts| == 1 then parts[0] else parts[0] + [sep] + JoinWith(parts[1..], sep)
  }

  function Reverse<T>(s: seq<T>): (r: seq<T>)
    ensures |r| == |s|
    decreases |s|
  {
    if s == [] then [] else Reverse(s[1..]) + [s[0]]
  }

  function LabelKeys(labels: seq<string>): (r: seq<seq<Chunk>>)
    ensures |r| == |labels|
    decreases |labels|
  {
    if labels == [] then [] else [NatKey(labels[0])] + LabelKeys(labels[1..])
  }

  /** `_natsort_key(reversed(name.split('.')))`: the labels' natural keys, root label first. */
  function DnsKey(name: string): seq<seq<Chunk>> {
    LabelKeys(Reverse(Split(name, '.')))
  }

  /** What `get_sorting_key` returns under either policy. */
  datatype SortKey = ByNatural(chunks: seq<Chunk>) | ByLabels(labels: seq<seq<Chunk>>)

  /** `get_sorting_key` of SortEnforcingLoader and SortingDumper: `_natsort_key(d)`. */
  function NaturalSortingKey(d: string): SortKey {
    ByNatural(NatKey(d))
  }

  /** `get_sorting_key` of DnsSortEnforcingLoader and DnsSortingDumper. */
  function DnsSortingKey(d: string): SortKey {
    ByLabels(DnsKey(d))
  }

  function SortKeyOf(p: Policy): string -> SortKey {
    match p
    case Natural => NaturalSortingKey
    case DnsHierarchy => DnsSortingKey
  }

  /**
   * `<` on sort keys. Keys of the two policies are never compared with
   * each other; natural keys are put first only to keep the order total.
   */
  predicate KeyLt(x: SortKey, y: SortKey) {
    match (x, y)
    case (ByNatural(a), ByNatural(b)) => NatKeyLt(a, b)
    case (ByLabels(a), ByLabels(b)) => LexLt(a, b, NatKeyLt)
    case (ByNatural(_), ByLabels(_)) => true
    case (ByLabels(_), ByNatural(_)) => false
  }

  /** `a` sorts strictly before `b` under policy `p`. */
  predicate Precedes(p: Policy, a: string, b: string) {
    KeyLt(SortKeyOf(p)(a), SortKeyOf(p)(b))
  }

  lemma KeyOrder()
    ensures StrictTotalOrder(KeyLt)
  {
    NatKeyOrder();
    LexOrder(NatKeyLt);
    forall x: SortKey, y: SortKey ensures KeyLt(x, y) ==> !KeyLt(y, x) {
      if x.ByLabels? && y.ByLabels? {
        assert KeyLt(x, y) == LexLt(x.labels, y.labels, NatKeyLt);
      }
    }
    forall x: SortKey, y: SortKey, z: SortKey ensures KeyLt(x, y) && KeyLt(y, z) ==> KeyLt(x, z) {
      if x.ByLabels? && y.ByLabels? && z.ByLabels? {
        assert KeyLt(x, y) == LexLt(x.labels, y.labels, NatKeyLt);
      }
    }
    forall x: SortKey, y: SortKey ensures x != y ==> KeyLt(x, y) || KeyLt(y, x) {
      if x.ByLabels? && y.ByLabels? {
        assert x != y ==> x.labels != y.labels;
      }
    }
  }

  /**
   * Under either policy no string precedes itself, precedence is
   * transitive, and two strings tie exactly when their sort keys are equal:
   * "not after" is a total preorder, with ties between distinct strings such
   * as `a2` and `a02`.
   */
  lemma PrecedesIsStrictWeakOrder(p: Policy)
    ensures forall a :: !Precedes(p, a, a)
    ensures forall a, b :: Precedes(p, a, b) ==> !Precedes(p, b, a)
    ensures forall a, b, c :: Precedes(p, a, b) && Precedes(p, b, c) ==> Precedes(p, a, c)
    ensures forall a, b :: !Precedes(p, a, b) && !Precedes(p, b, a) <==> SortKeyOf(p)(a) == SortKeyOf(p)(b)
  {
    KeyOrder();
  }

  lemma {:induction false} SplitWithoutSeparator(s: string, sep: char)
    requires sep !in s
    ensures Split(s, sep) == [s]
    decreases |s|
  {
    if s != [] {
      assert sep !in s[1..];
      SplitWithoutSeparator(s[1..], sep);
      assert s == [s[0]] + s[1..];
    }
  }

  /** Splitting at a separator splits the two sides independently. */
  lemma {:induction false} SplitAtSeparator(x: string, y: string, sep: char)
    ensures Split(x + [sep] + y, sep) == Split(x, sep) + Split(y, sep)
    decreases |x|
  {
    var s := x + [sep] + y;
    if x == [] {
      assert s[1..] == y;
    } else {
      assert s[1..] == x[1..] + [sep] + y;
      SplitAtSeparator(x[1..], y, sep);
    }
  }

  /** `sep.join(s.split(sep)) == s`, and no part contains the separator. */
  lemma {:induction false} SplitJoinRoundTrip(s: string, sep: char)
    ensures JoinWith(Split(s, sep), sep) == s
    ensures forall i :: 0 <= i < |Split(s, sep)| ==> sep !in Split(s, sep)[i]
    decreases |s|
  {
    if s != [] {
      var rest := Split(s[1..], sep);
      SplitJoinRoundTrip(s[1..], sep);
      if s[0] == sep {
        assert Split(s, sep) == [[]] + rest;
        assert JoinWith(Split(s, sep), sep) == [] + [sep] + JoinWith(rest, sep);
        assert s == [sep] + s[1..];
      } else {
        var parts := Split(s, sep);
        assert parts == [[s[0]] + rest[0]] + rest[1..];
        if |rest| == 1 {
          assert JoinWith(parts, sep) == [s[0]] + rest[0];
          assert JoinWith(rest, sep) == rest[0];
        } else {
          assert rest == [rest[0]] + rest[1..];
          assert JoinWith(rest, sep) == rest[0] + [sep] + JoinWith(rest[1..], sep);
          assert parts[1..] == rest[1..];
          assert JoinWith(parts, sep) == [s[0]] + rest[0] + [sep] + JoinWith(rest[1..], sep);
        }
        assert s == [s[0]] + s[1..];
        forall i | 0 <= i < |parts| ensures sep !in parts[i] {
          if i == 0 {
            assert sep !in rest[0];
          } else {
            assert parts[i] == rest[i];
          }
        }
      }
    }
  }

  lemma {:induction false} ReverseAppend<T>(a: seq<T>, b: seq<T>)
    ensures Reverse(a + b) == Reverse(b) + Reverse(a)
    decreases |a|
  {
    if a == [] {
      assert a + b == b;
    } else {
      assert (a + b)[1..] == a[1..] + b;
      ReverseAppend(a[1..], b);
    }
  }

  lemma {:induction false} LabelKeysAppend(a: seq<string>, b: seq<string>)
    ensures LabelKeys(a + b) == LabelKeys(a) + LabelKeys(b)
    decreases |a|
  {
    if a == [] {
      assert a + b == b;
    } else {
      assert (a + b)[1..] == a[1..] + b;
      LabelKeysAppend(a[1..], b);
    }
  }

  /** Prefixing a label to a name appends that label's key to the DNS key. */
  lemma DnsKeyOfChild(leaf: string, parent: string)
    requires '.' !in leaf
    ensures DnsKey(leaf + "." + parent) == DnsKey(parent) + [NatKey(leaf)]
  {
    SplitAtSeparator(leaf, parent, '.');
    SplitWithoutSeparator(leaf, '.');
    ReverseAppend([leaf], Split(parent, '.'));
    assert Reverse([leaf]) == [leaf] by {
      assert [leaf][1..] == [];
    }
    LabelKeysAppend(Reverse(Split(parent, '.')), [leaf]);
    assert LabelKeys([leaf]) == [NatKey(leaf)] by {
      assert [leaf][1..] == [];
    }
  }

  /** A name sorts before every name directly below it. */
  lemma ParentBeforeChild(leaf: string, parent: string)
    requires '.' !in leaf
    ensures Precedes(DnsHierarchy, parent, leaf + "." + parent)
  {
    DnsKeyOfChild(leaf, parent);
    LexCommonPrefix(DnsKey(parent), [], [NatKey(leaf)], NatKeyLt);
    assert DnsKey(parent) + [] == DnsKey(parent);
  }

  /** Names below the same parent order by their first labels, in natural order. */
  lemma SiblingsByLabel(x: string, y: string, parent: string)
    requires '.' !in x && '.' !in y
    ensures Precedes(DnsHierarchy, x + "." + parent, y + "." + parent) <==> NatLt(x, y)
  {
    DnsKeyOfChild(x, parent);
    DnsKeyOfChild(y, parent);
    LexCommonPrefix(DnsKey(parent), [NatKey(x)], [NatKey(y)], NatKeyLt);
    NatKeyOrder();
    assert [NatKey(x)][1..] == [] && [NatKey(y)][1..] == [];
  }
}
