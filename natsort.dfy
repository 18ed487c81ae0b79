/**
 * The natural sort key (`natsort_keygen()` with its default settings, for
 * ASCII digits, without the Unicode NFD normalisation natsort applies to the
 * text first, so code points are compared as written): a string is cut into maximal runs of digits and of
 * non-digits, digit runs become their integer value, and an empty text
 * chunk is put first when the string starts with a digit, so that text and
 * numbers alternate from a text chunk on. Keys compare as Python tuples.
 */
module NatSort {
  import opened Lexicographic
  import opened Numerals

  datatype Chunk = Text(text: string) | Number(value: nat)

  /** Python's `<` on characters: by code point. */
  function CharLt(x: char, y: char): bool {
    x < y
  }

  /**
   * `<` on chunks. Python raises when it compares a number with a text; by
   * NatKeyAlternates that never happens between two natural keys, and here
   * such a comparison is given a value only to keep the order total.
   */
  function ChunkLt(x: Chunk, y: Chunk): bool {
    match (x, y)
    case (Text(s), Text(t)) => LexLt(s, t, CharLt)
    case (Number(m), Number(n)) => m < n
    case (Number(_), Text(_)) => true
    case (Text(_), Number(_)) => false
  }

  /** The runs of `s`, digits read as numbers. */
  function Tokens(s: string): seq<Chunk>
    decreases |s|
  {
    if s == [] then []
    else
      var digits := IsDigit(s[0]);
      var n := RunLen(s, digits);
      [if digits then Number(Value(s[..n])) else Text(s[..n])] + Tokens(s[n..])
  }

  /** `_natsort_key(s)` for a string `s`. */
  function NatKey(s: string): seq<Chunk> {
    (if s != [] && IsDigit(s[0]) then [Text([])] else []) + Tokens(s)
  }

  /** `<` on natural keys (tuples of chunks). */
  function NatKeyLt(a: seq<Chunk>, b: seq<Chunk>): bool {
    LexLt(a, b, ChunkLt)
  }

  /** `x` sorts strictly before `y` in natural order. */
  predicate NatLt(x: string, y: string) {
    NatKeyLt(NatKey(x), NatKey(y))
  }

  lemma CharOrder()
    ensures StrictTotalOrder(CharLt)
  {
  }

  lemma ChunkOrder()
    ensures StrictTotalOrder(ChunkLt)
  {
    CharOrder();
    LexOrder(CharLt);
    forall x: Chunk, y: Chunk ensures ChunkLt(x, y) ==> !ChunkLt(y, x) {
      if x.Text? && y.Text? {
        assert ChunkLt(x, y) == LexLt(x.text, y.text, CharLt);
      }
    }
    forall x: Chunk, y: Chunk, z: Chunk ensures ChunkLt(x, y) && ChunkLt(y, z) ==> ChunkLt(x, z) {
      if x.Text? && y.Text? && z.Text? {
        assert ChunkLt(x, y) == LexLt(x.text, y.text, CharLt);
      }
    }
    forall x: Chunk, y: Chunk ensures x != y ==> ChunkLt(x, y) || ChunkLt(y, x) {
      if x.Text? && y.Text? {
        assert x != y ==> x.text != y.text;
      }
    }
  }

  /** Comparing natural keys is a strict total order; strings with equal keys tie. */
  lemma NatKeyOrder()
    ensures StrictTotalOrder(NatKeyLt)
  {
    ChunkOrder();
    LexOrder(ChunkLt);
  }

  /** Consecutive runs of Tokens alternate between numbers and text. */
  lemma {:induction false} TokensAlternate(s: string)
    requires s != []
    ensures forall i :: 0 <= i < |Tokens(s)| ==> (Tokens(s)[i].Number? <==> (IsDigit(s[0]) <==> i % 2 == 0))
    decreases |s|
  {
    var n := RunLen(s, IsDigit(s[0]));
    if s[n..] != [] {
      TokensAlternate(s[n..]);
      assert IsDigit(s[n..][0]) != IsDigit(s[0]);
    }
  }

  /**
   * A natural key holds text at every even position and a number at every
   * odd one, so two keys never compare a number with a text.
   */
  lemma NatKeyAlternates(s: string)
    ensures forall i :: 0 <= i < |NatKey(s)| ==> (NatKey(s)[i].Text? <==> i % 2 == 0)
  {
    if s != [] {
      TokensAlternate(s);
    }
  }

  /** Appending a numeral to a string that does not end in a digit appends one number chunk. */
  lemma {:induction false} TokensAppendNumeral(p: string, d: string)
    requires d != [] && AllDigits(d)
    requires p == [] || !IsDigit(p[|p| - 1])
    ensures Tokens(p + d) == Tokens(p) + [Number(Value(d))]
    decreases |p|
  {
    var s := p + d;
    if p == [] {
      assert s == d;
      RunLenUnique(d, true, |d|);
      assert d[..|d|] == d && d[|d|..] == [];
      assert Tokens(d) == [Number(Value(d))] + Tokens([]);
      assert Tokens(p) + [Number(Value(d))] == [Number(Value(d))];
    } else {
      var digits := IsDigit(p[0]);
      var m := RunLen(p, digits);
      assert m >= 1;
      assert m == |p| ==> !digits by {
        if m == |p| {
          assert IsDigit(p[|p| - 1]) == digits;
        }
      }
      assert forall i :: 0 <= i < m ==> s[i] == p[i];
      assert m < |s| ==> IsDigit(s[m]) != digits by {
        if m < |p| {
          assert s[m] == p[m];
        } else {
          assert s[m] == d[0];
        }
      }
      RunLenUnique(s, digits, m);
      assert s[0] == p[0];
      var head := if digits then Number(Value(p[..m])) else Text(p[..m]);
      assert s[..m] == p[..m];
      assert Tokens(s) == [head] + Tokens(s[m..]);
      assert Tokens(p) == [head] + Tokens(p[m..]);
      var tail := p[m..];
      assert s[m..] == tail + d;
      assert tail == [] || tail[|tail| - 1] == p[|p| - 1];
      TokensAppendNumeral(tail, d);
      assert Tokens(s) == [head] + (Tokens(tail) + [Number(Value(d))]);
      AppendAssociative([head], Tokens(tail), [Number(Value(d))]);
    }
  }

  lemma AppendAssociative<T>(a: seq<T>, b: seq<T>, c: seq<T>)
    ensures a + (b + c) == (a + b) + c
  {
  }

  lemma NatKeyAppendNumeral(p: string, d: string)
    requires d != [] && AllDigits(d)
    requires p == [] || !IsDigit(p[|p| - 1])
    ensures NatKey(p + d) == (if p == [] then [Text([])] else NatKey(p)) + [Number(Value(d))]
  {
    TokensAppendNumeral(p, d);
    if p == [] {
      assert p + d == d;
    } else {
      assert (p + d)[0] == p[0];
    }
  }

  /**
   * Strings that share a prefix and end in numerals order by the numerals'
   * values, whatever their digit counts: `item2` before `item12`, and
   * `item2` ties with `item02`.
   */
  lemma NumericSuffixOrder(p: string, d1: string, d2: string)
    requires d1 != [] && AllDigits(d1) && d2 != [] && AllDigits(d2)
    requires p == [] || !IsDigit(p[|p| - 1])
    ensures NatLt(p + d1, p + d2) <==> Value(d1) < Value(d2)
  {
    NatKeyAppendNumeral(p, d1);
    NatKeyAppendNumeral(p, d2);
    var k := if p == [] then [Text([])] else NatKey(p);
    LexCommonPrefix(k, [Number(Value(d1))], [Number(Value(d2))], ChunkLt);
    assert LexLt([Number(Value(d1))], [Number(Value(d2))], ChunkLt) <==> Value(d1) < Value(d2) by {
      assert [Number(Value(d1))][1..] == [] && [Number(Value(d2))][1..] == [];
    }
  }

  /** A non-empty string without digits is a single text chunk. */
  lemma NatKeyOfText(s: string)
    requires s != []
    requires forall i :: 0 <= i < |s| ==> !IsDigit(s[i])
    ensures NatKey(s) == [Text(s)]
  {
    RunLenUnique(s, false, |s|);
    assert !IsDigit(s[0]);
    assert s[..|s|] == s && s[|s|..] == [];
    assert Tokens(s) == [Text(s)] + Tokens([]);
  }
}
