/**
 * The dump side: `SortingDumper` and `DnsSortingDumper` sort the items of
 * every mapping by the policy key of the item's key before emitting it,
 * and `safe_dump` picks the dumper and merges the emitter options.
 */
module YamlDumper {
  import opened Wrappers
  import opened OrderPolicy
  import opened StableSort
  import opened YamlLoader

  /** The Python data handed to the dumper: strings (and other scalars), lists and dicts. */
  datatype Data =
    | Scalar(text: string)
    | Sequence(elements: seq<Data>)
    | Mapping(items: seq<(string, Data)>)

  /** `lambda d: self.get_sorting_key(d[0])` for the natural dumper. */
  function NaturalItemKey(d: (string, Data)): SortKey {
    NaturalSortingKey(d.0)
  }

  /** `lambda d: self.get_sorting_key(d[0])` for the DNS dumper. */
  function DnsItemKey(d: (string, Data)): SortKey {
    DnsSortingKey(d.0)
  }

  function ItemKeyOf(p: Policy): ((string, Data)) -> SortKey {
    match p
    case Natural => NaturalItemKey
    case DnsHierarchy => DnsItemKey
  }

  lemma ItemKeyIsKeyOfName(p: Policy)
    ensures forall d :: ItemKeyOf(p)(d) == SortKeyOf(p)(d.0)
  {
  }

  /** `sorted(data.items(), key=...)`. */
  function SortedItems(p: Policy, items: seq<(string, Data)>): (r: seq<(string, Data)>)
    ensures multiset(r) == multiset(items)
    ensures forall d :: d in r ==> d in items
  {
    var r := SortBy(items, ItemKeyOf(p), KeyLt);
    assert forall d :: d in r ==> d in multiset(items);
    r
  }

  /**
   * The node tree the dumper emits for `v` under policy `p`: every
   * mapping's items are sorted by key, then each value is represented in
   * turn; scalars and lists keep their shape.
   */
  function Represent(p: Policy, v: Data): Data
    decreases v
  {
    match v
    case Scalar(_) => v
    case Sequence(elements) =>
      Sequence(seq(|elements|, i requires 0 <= i < |elements| => Represent(p, elements[i])))
    case Mapping(items) =>
      var sorted := SortedItems(p, items);
      Mapping(seq(|sorted|, i requires 0 <= i < |sorted| =>
        assert sorted[i] in items;
        (sorted[i].0, Represent(p, sorted[i].1))))
  }

  /** One item as `represent_mapping` emits it. */
  function RepresentItem(p: Policy, d: (string, Data)): (string, Data) {
    (d.0, Represent(p, d.1))
  }

  /** Every mapping anywhere in `v` has its keys in the order of policy `p`. */
  predicate AllOrdered(p: Policy, v: Data)
    decreases v
  {
    match v
    case Scalar(_) => true
    case Sequence(elements) => forall i :: 0 <= i < |elements| ==> AllOrdered(p, elements[i])
    case Mapping(items) =>
      InOrder(p, KeysOf(items)) && forall i :: 0 <= i < |items| ==> AllOrdered(p, items[i].1)
  }

  lemma MappingItems(p: Policy, items: seq<(string, Data)>)
    ensures Represent(p, Mapping(items)).Mapping?
    ensures Represent(p, Mapping(items)).items == MapSeq(d => RepresentItem(p, d), SortedItems(p, items))
  {
  }

  /**
   * A dumped mapping's keys are exactly the sorted copy the loader check of
   * the same policy computes, and its items are the input's items, each
   * value represented, in some order.
   */
  lemma RepresentMapping(p: Policy, items: seq<(string, Data)>)
    ensures Represent(p, Mapping(items)).Mapping?
    ensures KeysOf(Represent(p, Mapping(items)).items) == SortedKeys(p, KeysOf(items))
    ensures InOrder(p, KeysOf(Represent(p, Mapping(items)).items))
    ensures multiset(Represent(p, Mapping(items)).items) == multiset(MapSeq(d => RepresentItem(p, d), items))
  {
    var name := (d: (string, Data)) => d.0;
    var rep := (d: (string, Data)) => RepresentItem(p, d);
    var sorted := SortedItems(p, items);
    MappingItems(p, items);
    var out := Represent(p, Mapping(items)).items;
    ItemKeyIsKeyOfName(p);
    SortByMapped(name, items, ItemKeyOf(p), SortKeyOf(p), KeyLt);
    assert KeysOf(items) == MapSeq(name, items);
    assert KeysOf(out) == MapSeq(name, sorted);
    SortedKeysSpec(p, KeysOf(items));
    SortByMapped(rep, items, ItemKeyOf(p), ItemKeyOf(p), KeyLt);
  }

  /** The dumper orders every mapping of the document, at every depth. */
  lemma {:induction false} RepresentAllOrdered(p: Policy, v: Data)
    ensures AllOrdered(p, Represent(p, v))
    decreases v
  {
    match v
    case Scalar(_) =>
    case Sequence(elements) =>
      forall i | 0 <= i < |elements| ensures AllOrdered(p, Represent(p, v).elements[i]) {
        RepresentAllOrdered(p, elements[i]);
      }
    case Mapping(items) =>
      RepresentMapping(p, items);
      var sorted := SortedItems(p, items);
      var out := Represent(p, v).items;
      forall i | 0 <= i < |out| ensures AllOrdered(p, out[i].1) {
        assert sorted[i] in items;
        assert out[i].1 == Represent(p, sorted[i].1);
        RepresentAllOrdered(p, sorted[i].1);
      }
  }

  lemma OrderedItems(p: Policy, items: seq<(string, Data)>)
    requires InOrder(p, KeysOf(items))
    ensures SortedItems(p, items) == items
  {
    ItemKeyIsKeyOfName(p);
    assert OrderedBy(items, ItemKeyOf(p), KeyLt) by {
      forall i | 0 < i < |items| ensures !KeyLt(ItemKeyOf(p)(items[i]), ItemKeyOf(p)(items[i - 1])) {
        assert KeysOf(items)[i] == items[i].0 && KeysOf(items)[i - 1] == items[i - 1].0;
      }
    }
    KeyOrder();
    StrictTotalIsStrictWeak(KeyLt);
    SortByFixesExactlyOrdered(items, ItemKeyOf(p), KeyLt);
  }

  /** The dumper leaves a document unchanged exactly when it is already ordered. */
  lemma {:induction false} RepresentFixesExactlyOrdered(p: Policy, v: Data)
    ensures Represent(p, v) == v <==> AllOrdered(p, v)
    decreases v
  {
    RepresentAllOrdered(p, v);
    if AllOrdered(p, v) {
      match v
      case Scalar(_) =>
      case Sequence(elements) =>
        var out := Represent(p, v).elements;
        forall i | 0 <= i < |elements| ensures out[i] == elements[i] {
          RepresentFixesExactlyOrdered(p, elements[i]);
        }
      case Mapping(items) =>
        OrderedItems(p, items);
        var out := Represent(p, v).items;
        forall i | 0 <= i < |items| ensures out[i] == items[i] {
          RepresentFixesExactlyOrdered(p, items[i].1);
        }
    }
  }

  /** Dumping what the dumper produced changes nothing. */
  lemma RepresentIdempotent(p: Policy, v: Data)
    ensures Represent(p, Represent(p, v)) == Represent(p, v)
  {
    RepresentAllOrdered(p, v);
    RepresentFixesExactlyOrdered(p, Represent(p, v));
  }

  datatype DumperClass = SortingDumper | DnsSortingDumper

  function DumperPolicy(d: DumperClass): Policy {
    match d
    case SortingDumper => Natural
    case DnsSortingDumper => DnsHierarchy
  }

  /** The dumper `safe_dump` picks: only the string `'dns'` selects the DNS dumper. */
  function DumperFor(e: EnforceOrder): (r: DumperClass)
    ensures r == DnsSortingDumper <==> e == StrArg("dns")
    ensures DumperPolicy(r) == Natural <==> e != StrArg("dns")
  {
    if e != StrArg("dns") then SortingDumper else DnsSortingDumper
  }

  /** Every mapping anywhere in `v` passes the key-order check of `loader`. */
  predicate Accepted(loader: LoaderClass, v: Data)
    decreases v
  {
    match v
    case Scalar(_) => true
    case Sequence(elements) => forall i :: 0 <= i < |elements| ==> Accepted(loader, elements[i])
    case Mapping(items) =>
      !Rejects(loader, KeysOf(items)) && forall i :: 0 <= i < |items| ==> Accepted(loader, items[i].1)
  }

  lemma {:induction false} OrderedAccepted(loader: LoaderClass, p: Policy, v: Data)
    requires EnforcedPolicy(loader) == None || EnforcedPolicy(loader) == Some(p)
    requires AllOrdered(p, v)
    ensures Accepted(loader, v)
    decreases v
  {
    match v
    case Scalar(_) =>
    case Sequence(elements) =>
      forall i | 0 <= i < |elements| ensures Accepted(loader, elements[i]) {
        OrderedAccepted(loader, p, elements[i]);
      }
    case Mapping(items) =>
      forall i | 0 <= i < |items| ensures Accepted(loader, items[i].1) {
        OrderedAccepted(loader, p, items[i].1);
      }
  }

  /**
   * Loading back what `safe_dump` wrote, with the same `enforce_order`,
   * never raises a key-order error: whenever the loader enforces a policy
   * it is the dumper's policy.
   */
  lemma LoadAcceptsDump(e: EnforceOrder, v: Data)
    ensures EnforcedPolicy(LoaderFor(e)) == None || EnforcedPolicy(LoaderFor(e)) == Some(DumperPolicy(DumperFor(e)))
    ensures Accepted(LoaderFor(e), Represent(DumperPolicy(DumperFor(e)), v))
  {
    var p := DumperPolicy(DumperFor(e));
    RepresentAllOrdered(p, v);
    OrderedAccepted(LoaderFor(e), p, Represent(p, v));
  }

  /** A keyword argument value passed to `yaml.dump`. */
  datatype OptionValue = BoolOpt(b: bool) | IntOpt(i: int) | StrOpt(s: string)

  /** The emitter options `safe_dump` starts from. */
  function DefaultOptions(): map<string, OptionValue> {
    map[
      "canonical" := BoolOpt(false),
      "indent" := IntOpt(2),
      "default_style" := StrOpt(""),
      "default_flow_style" := BoolOpt(false),
      "explicit_start" := BoolOpt(true)]
  }

  /** The call `safe_dump` makes into `yaml.dump`; the stream is left out. */
  datatype DumpCall = DumpCall(document: Data, dumper: DumperClass, options: map<string, OptionValue>)

  /**
   * `safe_dump`: caller options override the defaults key by key, the
   * remaining defaults stay, and the document is represented by the
   * dumper `enforce_order` selects.
   */
  method SafeDump(data: Data, enforceOrder: EnforceOrder, options: map<string, OptionValue>) returns (call: DumpCall)
    ensures call.dumper == DumperFor(enforceOrder)
    ensures call.document == Represent(DumperPolicy(DumperFor(enforceOrder)), data)
    ensures call.options.Keys == DefaultOptions().Keys + options.Keys
    ensures forall k :: k in options ==> call.options[k] == options[k]
    ensures forall k :: k in DefaultOptions() && k !in options ==> call.options[k] == DefaultOptions()[k]
  {
    var kwargs := DefaultOptions();
    kwargs := kwargs + options;
    var dumper := if enforceOrder != StrArg("dns") then SortingDumper else DnsSortingDumper;
    call := DumpCall(Represent(DumperPolicy(dumper), data), dumper, kwargs);
  }
}
