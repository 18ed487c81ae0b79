/**
 * The loading side: how a mapping node becomes a ContextDict carrying its
 * provenance, how the order-enforcing loaders check a mapping's keys,
 * which loader `safe_load` picks, and how `!include` names the file it
 * loads. PyYAML's parsing is outside the model: a mapping node arrives as
 * its (key, value) pairs in document order, after merge keys have been
 * flattened and the values constructed.
 */
module YamlLoader {
  import opened Wrappers
  import opened Numerals
  import opened OrderPolicy
  import opened StableSort
  import PosixPath

  /** PyYAML's position of a node: source name, 0-based line and column. */
  datatype Mark = Mark(name: string, line: nat, column: nat)

  datatype MappingNode<V> = MappingNode(pairs: seq<(string, V)>, start: Mark)

  /** A constructed mapping: its pairs plus where it was parsed. */
  datatype ContextDict<V> = ContextDict(pairs: seq<(string, V)>, context: string)

  /** The ConstructorError raised for a mapping whose keys are out of order. */
  datatype OrderError = OrderError(expected: string, got: string, context: string) {
    function Message(): string {
      "keys out of order: expected " + expected + " got " + got + " at " + context
    }
  }

  /** `"<name>, line <line+1>, column <column+1>"`. */
  function Provenance(m: Mark): string {
    m.name + ", line " + Decimal(m.line + 1) + ", column " + Decimal(m.column + 1)
  }

  /** Reads the 1-based line and column back out of a provenance string for source `name`. */
  function ParseProvenance(name: string, context: string): Option<(nat, nat)> {
    var lead := name + ", line ";
    if |context| < |lead| || context[..|lead|] != lead then None
    else
      var rest := context[|lead|..];
      var n := RunLen(rest, true);
      var sep := ", column ";
      var after := rest[n..];
      if n == 0 || |after| < |sep| || after[..|sep|] != sep then None
      else
        var col := after[|sep|..];
        if col == [] || RunLen(col, true) != |col| then None
        else Some((Value(rest[..n]), Value(col)))
  }

  /** The provenance string determines the mark's line and column, and shows them 1-based. */
  lemma ProvenanceRoundTrip(m: Mark)
    ensures ParseProvenance(m.name, Provenance(m)) == Some((m.line + 1, m.column + 1))
  {
    var lead := m.name + ", line ";
    var d1, d2 := Decimal(m.line + 1), Decimal(m.column + 1);
    var sep := ", column ";
    var context := Provenance(m);
    assert context == lead + (d1 + (sep + d2));
    assert context[..|lead|] == lead;
    var rest := context[|lead|..];
    assert rest == d1 + (sep + d2);
    RunLenOfNumeral(d1, sep + d2);
    assert rest[..|d1|] == d1;
    var after := rest[|d1|..];
    assert after == sep + d2;
    assert after[..|sep|] == sep;
    assert after[|sep|..] == d2;
    RunLenOfNumeral(d2, []);
    assert d2 + [] == d2;
  }

  /** `ContextLoader._pairs`: the dict, its pairs in document order, and its provenance. */
  function Pairs<V>(node: MappingNode<V>): (ContextDict<V>, seq<(string, V)>, string) {
    var context := Provenance(node.start);
    (ContextDict(node.pairs, context), node.pairs, context)
  }

  /**
   * `_pairs` keeps the pairs in document order, and its context string gives
   * the node's start line and column counted from 1.
   */
  lemma PairsSpec<V>(node: MappingNode<V>)
    ensures Pairs(node).1 == node.pairs
    ensures Pairs(node).0 == ContextDict(node.pairs, Pairs(node).2)
    ensures ParseProvenance(node.start.name, Pairs(node).2) == Some((node.start.line + 1, node.start.column + 1))
  {
    ProvenanceRoundTrip(node.start);
  }

  /** `[d[0] for d in pairs]`. */
  function KeysOf<V>(pairs: seq<(string, V)>): (keys: seq<string>)
    ensures |keys| == |pairs|
  {
    seq(|pairs|, i requires 0 <= i < |pairs| => pairs[i].0)
  }

  /** The keys are already in the order `sorted` would give them under `p`. */
  predicate InOrder(p: Policy, keys: seq<string>) {
    OrderedBy(keys, SortKeyOf(p), KeyLt)
  }

  /** `sorted(keys, key=self.get_sorting_key)`. */
  function SortedKeys(p: Policy, keys: seq<string>): (r: seq<string>)
    ensures |r| == |keys|
  {
    SortBy(keys, SortKeyOf(p), KeyLt)
  }

  /**
   * The sorted copy is a permutation of the keys in order, keys that tie
   * keep their document order in it, and it equals the keys exactly when
   * they are already in order.
   */
  lemma SortedKeysSpec(p: Policy, keys: seq<string>)
    ensures multiset(SortedKeys(p, keys)) == multiset(keys)
    ensures InOrder(p, SortedKeys(p, keys))
    ensures SortedKeys(p, keys) == keys <==> InOrder(p, keys)
    ensures forall k :: TiedWith(SortedKeys(p, keys), SortKeyOf(p), KeyLt, k) == TiedWith(keys, SortKeyOf(p), KeyLt, k)
  {
    KeyOrder();
    StrictTotalIsStrictWeak(KeyLt);
    SortByOrdered(keys, SortKeyOf(p), KeyLt);
    SortByFixesExactlyOrdered(keys, SortKeyOf(p), KeyLt);
    forall k ensures TiedWith(SortedKeys(p, keys), SortKeyOf(p), KeyLt, k) == TiedWith(keys, SortKeyOf(p), KeyLt, k) {
      SortByStable(keys, SortKeyOf(p), KeyLt, k);
    }
  }

  /**
   * The fixed-point fact of SortedKeysSpec, which is all ConstructChecked needs. Its stability
   * clause quantifies over every key, and having it in the loop's context makes
   * the method's proof far more expensive.
   */
  lemma SortedKeysFixExactlyInOrder(p: Policy, keys: seq<string>)
    ensures |SortedKeys(p, keys)| == |keys|
    ensures SortedKeys(p, keys) == keys <==> InOrder(p, keys)
  {
    KeyOrder();
    StrictTotalIsStrictWeak(KeyLt);
    SortByFixesExactlyOrdered(keys, SortKeyOf(p), KeyLt);
  }

  /**
   * `e` is the error raised for `keys` under `p`: it names the sorted key and
   * the document key at the first position where the two differ, and `context`.
   */
  predicate FirstMismatch(p: Policy, keys: seq<string>, context: string, e: OrderError) {
    var sorted := SortedKeys(p, keys);
    exists i :: 0 <= i < |keys| && keys[..i] == sorted[..i] && keys[i] != sorted[i]
      && e == OrderError(sorted[i], keys[i], context)
  }

  /**
   * `SortEnforcingLoader._construct` under policy `p`: walks the keys
   * beside a sorted copy, popping the copy's head at each step, and raises
   * at the first position where they differ.
   */
  method ConstructChecked<V>(p: Policy, node: MappingNode<V>) returns (r: Result<ContextDict<V>, OrderError>)
    ensures r.Success? <==> InOrder(p, KeysOf(node.pairs))
    ensures r.Success? ==> r.value == ContextDict(node.pairs, Provenance(node.start))
    ensures r.Failure? ==> FirstMismatch(p, KeysOf(node.pairs), Provenance(node.start), r.error)
    ensures r.Failure? ==>
      r.error.Message() == "keys out of order: expected " + r.error.expected + " got " + r.error.got + " at " + Provenance(node.start)
  {
    var (ret, pairs, context) := Pairs(node);
    var keys := KeysOf(pairs);
    var keysSorted := SortedKeys(p, keys);
    ghost var sorted := keysSorted;
    var i := 0;
    while i < |keys|
      invariant 0 <= i <= |keys| == |sorted|
      invariant keysSorted == sorted[i..]
      invariant keys[..i] == sorted[..i]
    {
      var expected := keysSorted[0];
      keysSorted := keysSorted[1..];
      if keys[i] != expected {
        SortedKeysFixExactlyInOrder(p, keys);
        return Failure(OrderError(expected, keys[i], context));
      }
      assert keys[..i + 1] == keys[..i] + [keys[i]];
      assert sorted[..i + 1] == sorted[..i] + [sorted[i]];
      i := i + 1;
    }
    assert keys == keys[..i] && sorted == sorted[..i];
    SortedKeysFixExactlyInOrder(p, keys);
    return Success(ret);
  }

  /** The three loader classes. */
  datatype LoaderClass = ContextLoader | SortEnforcingLoader | DnsSortEnforcingLoader

  /** The policy whose order a loader enforces; ContextLoader checks nothing. */
  function EnforcedPolicy(loader: LoaderClass): Option<Policy> {
    match loader
    case ContextLoader => None
    case SortEnforcingLoader => Some(Natural)
    case DnsSortEnforcingLoader => Some(DnsHierarchy)
  }

  /** The loader rejects a mapping with these keys. */
  predicate Rejects(loader: LoaderClass, keys: seq<string>) {
    match EnforcedPolicy(loader)
    case None => false
    case Some(p) => !InOrder(p, keys)
  }

  /** The mapping constructor registered for each loader class. */
  method Construct<V>(loader: LoaderClass, node: MappingNode<V>) returns (r: Result<ContextDict<V>, OrderError>)
    ensures r.Failure? <==> Rejects(loader, KeysOf(node.pairs))
    ensures r.Success? ==> r.value == ContextDict(node.pairs, Provenance(node.start))
    ensures r.Failure? ==>
      EnforcedPolicy(loader).Some?
      && FirstMismatch(EnforcedPolicy(loader).value, KeysOf(node.pairs), Provenance(node.start), r.error)
  {
    match loader
    case ContextLoader =>
      r := Success(Pairs(node).0);
    case SortEnforcingLoader =>
      r := ConstructChecked(Natural, node);
    case DnsSortEnforcingLoader =>
      r := ConstructChecked(DnsHierarchy, node);
  }

  /** A Python value passed as `enforce_order`. */
  datatype EnforceOrder =
    | BoolArg(b: bool)
    | StrArg(s: string)
    | IntArg(i: int)
    | NoneArg
    | ClassArg(cls: LoaderClass)

  /** Python truthiness of the argument. */
  predicate Truthy(e: EnforceOrder) {
    match e
    case BoolArg(b) => b
    case StrArg(s) => s != []
    case IntArg(i) => i != 0
    case NoneArg => false
    case ClassArg(_) => true
  }

  /** The loader class `safe_load` picks: `'dns'` is tested first, then truthiness. */
  function LoaderFor(e: EnforceOrder): (r: LoaderClass)
    ensures r == DnsSortEnforcingLoader <==> e == StrArg("dns")
    ensures r == SortEnforcingLoader <==> e != StrArg("dns") && Truthy(e)
    ensures r == ContextLoader <==> !Truthy(e)
  {
    if e == StrArg("dns") then DnsSortEnforcingLoader
    else if Truthy(e) then SortEnforcingLoader
    else ContextLoader
  }

  /**
   * `safe_load` of a document whose content is the mapping `root`. The values
   * of `root` arrive already built: the check PyYAML runs on each nested
   * mapping while it builds those values is a separate `Construct`, not part of
   * this call.
   */
  method SafeLoad<V>(root: MappingNode<V>, enforceOrder: EnforceOrder) returns (r: Result<ContextDict<V>, OrderError>)
    ensures r.Failure? <==> Rejects(LoaderFor(enforceOrder), KeysOf(root.pairs))
    ensures r.Success? ==> r.value == ContextDict(root.pairs, Provenance(root.start))
    ensures r.Failure? ==>
      EnforcedPolicy(LoaderFor(enforceOrder)).Some?
      && FirstMismatch(EnforcedPolicy(LoaderFor(enforceOrder)).value, KeysOf(root.pairs), Provenance(root.start), r.error)
  {
    var loader := ContextLoader;
    if enforceOrder == StrArg("dns") {
      loader := DnsSortEnforcingLoader;
    } else if Truthy(enforceOrder) {
      loader := SortEnforcingLoader;
    }
    r := Construct(loader, root);
  }

  /** The file an `!include` loads and the loader class that loads it. */
  datatype IncludeRequest = IncludeRequest(path: string, loader: LoaderClass)

  /**
   * `ContextLoader.include` as written: the path is resolved against the
   * directory of the current source, and the current loader's class is
   * passed to `safe_load` as `enforce_order`. A class is truthy and is not
   * `'dns'`, so the included file is always checked in natural order.
   */
  function Include(current: LoaderClass, mark: Mark, scalar: string): (r: IncludeRequest)
    ensures r.loader == SortEnforcingLoader
    ensures EnforcedPolicy(r.loader) == Some(Natural)
  {
    IncludeRequest(PosixPath.Join(PosixPath.Dirname(mark.name), scalar), LoaderFor(ClassArg(current)))
  }

  /** An included file that shows the discrepancy: a DNS-ordered or unchecked load checks its includes naturally. */
  lemma IncludeIgnoresIncluderPolicy(mark: Mark, scalar: string)
    ensures EnforcedPolicy(Include(DnsSortEnforcingLoader, mark, scalar).loader) != EnforcedPolicy(DnsSortEnforcingLoader)
    ensures EnforcedPolicy(Include(ContextLoader, mark, scalar).loader) != EnforcedPolicy(ContextLoader)
  {
  }

  /** The include evidently intended: the included file is loaded by the same loader class. */
  function IncludeSameLoader(current: LoaderClass, mark: Mark, scalar: string): (r: IncludeRequest)
    ensures r.path == Include(current, mark, scalar).path
    ensures EnforcedPolicy(r.loader) == EnforcedPolicy(current)
  {
    IncludeRequest(PosixPath.Join(PosixPath.Dirname(mark.name), scalar), current)
  }

  /**
   * A relative include names a file in the including file's directory; an
   * absolute one is taken as is. This covers every including file whose
   * directory part is non-empty and does not end in a slash; one at the root
   * is the case of IncludeFromRoot, and one with repeated slashes before the
   * file name (`a//zone.yaml`) is left to IncludeStaysInDirectory.
   */
  lemma IncludeResolvesBesideIncluder(current: LoaderClass, mark: Mark, dir: string, base: string, scalar: string)
    requires mark.name == dir + "/" + base
    requires dir != [] && dir[|dir| - 1] != '/'
    requires '/' !in base
    ensures Include(current, mark, scalar).path
         == if scalar != [] && scalar[0] == '/' then scalar else dir + "/" + scalar
  {
    PosixPath.DirnameOfEntry(dir, base);
  }

  /** An including file directly under the root resolves a relative include under the root. */
  lemma IncludeFromRoot(current: LoaderClass, mark: Mark, base: string, scalar: string)
    requires mark.name == "/" + base
    requires '/' !in base
    ensures Include(current, mark, scalar).path
         == if scalar != [] && scalar[0] == '/' then scalar else "/" + scalar
  {
    PosixPath.DirnameAtRoot(base);
  }

  /** A source name without a directory (a stream's name) leaves the include path as written. */
  lemma IncludeFromBareName(current: LoaderClass, mark: Mark, scalar: string)
    requires '/' !in mark.name
    ensures Include(current, mark, scalar).path == scalar
  {
    PosixPath.DirnameOfBareName(mark.name);
  }

  /**
   * Including a plain file name keeps the directory: an include inside the
   * included file resolves against the same directory as the first one.
   */
  lemma IncludeStaysInDirectory(current: LoaderClass, mark: Mark, scalar: string)
    requires scalar != [] && '/' !in scalar
    ensures PosixPath.Dirname(Include(current, mark, scalar).path) == PosixPath.Dirname(mark.name)
  {
    var d := PosixPath.Dirname(mark.name);
    PosixPath.DirnameShape(mark.name);
    var path := Include(current, mark, scalar).path;
    if d == [] {
      assert path == scalar;
      PosixPath.DirnameOfBareName(scalar);
    } else if PosixPath.AllSlashes(d) {
      assert path == d + scalar;
      PosixPath.HeadLenUnique(path, |d|);
      assert path[..|d|] == d;
    } else {
      assert path == d + "/" + scalar;
      PosixPath.DirnameOfEntry(d, scalar);
    }
  }
}
