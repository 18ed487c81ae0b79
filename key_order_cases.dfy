/** Concrete key lists and what the order check makes of them. */
module KeyOrderCases {
  import opened Lexicographic
  import opened Numerals
  import opened NatSort
  import opened OrderPolicy
  import opened YamlLoader

  lemma PrecedesAsymmetric(p: Policy, a: string, b: string)
    requires Precedes(p, a, b)
    ensures !Precedes(p, b, a)
  {
    PrecedesIsStrictWeakOrder(p);
  }

  lemma InOrderOfPair(p: Policy, a: string, b: string)
    requires Precedes(p, a, b)
    ensures InOrder(p, [a, b]) && !InOrder(p, [b, a])
  {
    PrecedesIsStrictWeakOrder(p);
    assert [b, a][1] == a && [b, a][0] == b;
  }

  lemma InOrderOfChain(p: Policy, a: string, b: string, c: string, d: string)
    requires Precedes(p, a, b) && Precedes(p, b, c) && Precedes(p, c, d)
    ensures InOrder(p, [a, b, c, d])
  {
    PrecedesAsymmetric(p, a, b);
    PrecedesAsymmetric(p, b, c);
    PrecedesAsymmetric(p, c, d);
    var s := [a, b, c, d];
    assert s[1] == b && s[2] == c && s[3] == d && s[0] == a;
  }

  lemma NotInOrderAt(p: Policy, s: seq<string>, i: nat)
    requires 0 < i < |s| && Precedes(p, s[i], s[i - 1])
    ensures !InOrder(p, s)
  {
  }

  lemma ValueOfTwelve()
    ensures AllDigits("2") && Value("2") == 2 && AllDigits("12") && Value("12") == 12
  {
    assert "12"[..1] == "1";
  }

  lemma TwoNaturallyBeforeTwelve()
    ensures NatLt("2", "12")
  {
    ValueOfTwelve();
    assert "" + "2" == "2" && "" + "12" == "12";
    NumericSuffixOrder("", "2", "12");
  }

  /** The SortingDumper docstring: the number 2 comes before the number 12. */
  lemma TwoBeforeTwelve()
    ensures InOrder(Natural, ["2", "12"]) && !InOrder(Natural, ["12", "2"])
  {
    TwoNaturallyBeforeTwelve();
    InOrderOfPair(Natural, "2", "12");
  }

  /** Keys whose numerals differ only in zero padding tie, so either order passes the check. */
  lemma PaddedNumeralsTie()
    ensures InOrder(Natural, ["a2", "a02"]) && InOrder(Natural, ["a02", "a2"])
  {
    assert "a" + "2" == "a2" && "a" + "02" == "a02";
    assert Value("02") == 2 by {
      assert "02"[..1] == "0";
    }
    NumericSuffixOrder("a", "2", "02");
    NumericSuffixOrder("a", "02", "2");
  }

  lemma ParentBeforeSub2()
    ensures Precedes(DnsHierarchy, "a.test.com", "sub2.a.test.com")
  {
    assert "sub2" + "." + "a.test.com" == "sub2.a.test.com";
    ParentBeforeChild("sub2", "a.test.com");
  }

  lemma ValueOfTen()
    ensures AllDigits("2") && Value("2") == 2 && AllDigits("10") && Value("10") == 10
  {
    assert "10"[..1] == "1";
  }

  lemma Sub2NaturallyBeforeSub10()
    ensures NatLt("sub2", "sub10")
  {
    ValueOfTen();
    assert "sub" + "2" == "sub2" && "sub" + "10" == "sub10";
    NumericSuffixOrder("sub", "2", "10");
  }

  lemma Sub2BeforeSub10()
    ensures Precedes(DnsHierarchy, "sub2.a.test.com", "sub10.a.test.com")
  {
    assert "sub2" + "." + "a.test.com" == "sub2.a.test.com";
    assert "sub10" + "." + "a.test.com" == "sub10.a.test.com";
    Sub2NaturallyBeforeSub10();
    SiblingsByLabel("sub2", "sub10", "a.test.com");
  }

  /** A name below `x.parent` sorts before the sibling `y.parent` whenever `x` sorts before `y`. */
  lemma BelowEarlierSibling(leaf: string, x: string, y: string, parent: string)
    requires '.' !in leaf && '.' !in x && '.' !in y && NatLt(x, y)
    ensures Precedes(DnsHierarchy, leaf + "." + (x + "." + parent), y + "." + parent)
  {
    DnsKeyOfChild(leaf, x + "." + parent);
    DnsKeyOfChild(x, parent);
    DnsKeyOfChild(y, parent);
    var k := DnsKey(parent);
    var a, b := [NatKey(x), NatKey(leaf)], [NatKey(y)];
    assert DnsKey(leaf + "." + (x + "." + parent)) == k + a by {
      AppendAssociative(k, [NatKey(x)], [NatKey(leaf)]);
    }
    assert DnsKey(y + "." + parent) == k + b;
    LexCommonPrefix(k, a, b, NatKeyLt);
    NatKeyOrder();
    assert a[0] != b[0];
    assert LexLt(a, b, NatKeyLt);
  }

  lemma ABeforeB()
    ensures NatLt("a", "b")
  {
    NatKeyOfText("a");
    NatKeyOfText("b");
    assert ChunkLt(Text("a"), Text("b"));
  }

  /** A name directly below `a.test.com` sorts before `b.test.com`. */
  lemma BelowABeforeB(leaf: string)
    requires '.' !in leaf
    ensures Precedes(DnsHierarchy, leaf + ".a.test.com", "b.test.com")
  {
    assert leaf + ".a.test.com" == leaf + "." + ("a" + "." + "test.com");
    assert "b.test.com" == "b" + "." + "test.com";
    ABeforeB();
    BelowEarlierSibling(leaf, "a", "b", "test.com");
  }

  lemma Sub10BeforeB()
    ensures Precedes(DnsHierarchy, "sub10.a.test.com", "b.test.com")
  {
    assert "sub10" + ".a.test.com" == "sub10.a.test.com";
    BelowABeforeB("sub10");
  }

  /** The DnsSortingDumper docstring order passes the DNS check. */
  lemma DnsDocstringOrder()
    ensures InOrder(DnsHierarchy, ["a.test.com", "sub2.a.test.com", "sub10.a.test.com", "b.test.com"])
  {
    ParentBeforeSub2();
    Sub2BeforeSub10();
    Sub10BeforeB();
    InOrderOfChain(DnsHierarchy, "a.test.com", "sub2.a.test.com", "sub10.a.test.com", "b.test.com");
  }

  /** Putting `b.test.com` before the names below `a.test.com` fails the DNS check. */
  lemma DnsSiblingFirstFails()
    ensures !InOrder(DnsHierarchy, ["a.test.com", "b.test.com", "sub2.a.test.com", "sub10.a.test.com"])
  {
    assert "sub2" + ".a.test.com" == "sub2.a.test.com";
    BelowABeforeB("sub2");
    NotInOrderAt(DnsHierarchy, ["a.test.com", "b.test.com", "sub2.a.test.com", "sub10.a.test.com"], 2);
  }
}
