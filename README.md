# Key order in octoDNS's YAML layer

octoDNS reads and writes its zone and provider configuration as YAML
through `octodns/yaml.py`. That layer wraps PyYAML with a key-order
policy. The order-enforcing loaders reject any mapping whose keys are not
already sorted. The dumpers sort every mapping before it is written. There
are two policies:

- **Natural order.** A key is compared by natsort's natural key, so `a2`
  sorts before `a12`.
- **DNS hierarchy order.** A key is split on `.`, its labels are reversed, and
  the labels are compared one by one in natural order. `a.test.com` then
  sorts before `sub2.a.test.com`, `sub10.a.test.com` and `b.test.com`, in
  that order. The DNS loader therefore rejects `a.test.com, b.test.com,
  sub2.a.test.com, sub10.a.test.com`.

This project models that layer and proves its properties in Dafny:

- the sort keys;
- the check a loader runs on a mapping's keys, and the error it raises;
- the provenance string attached to every constructed mapping;
- loader and dumper selection from `enforce_order`;
- `!include` path resolution;
- the dumper's recursive sorting and the option merge of `safe_dump`.

Modules:

- `Lexicographic`: Python's `<` on tuples and strings. The first position
  where the elements differ decides, and a proper prefix sorts first. It is
  a strict total order when the element order is one.
- `Numerals`: ASCII digits, `int()` of a digit run and `str()` of a
  natural number.
- `NatSort`: natsort's default key, for ASCII text without its Unicode normalisation. A string is cut into maximal digit and
  non-digit runs, and each digit run becomes its integer value. When the
  string starts with a digit an empty text chunk comes first, so text and
  number chunks always alternate.
- `OrderPolicy`: the two policies, Python's `str.split`, the DNS key, and
  the order on sort keys.
- `StableSort`: Python's `sorted` as a stable insertion sort under any
  strict weak order. It is proved ordered, a permutation, stable, and the
  identity exactly on ordered input.
- `PosixPath`: `posixpath.dirname` and `posixpath.join`.
- `YamlLoader`: mapping nodes and marks, `_pairs`, the order check
  (`SortEnforcingLoader._construct`, an imperative loop that pops a sorted
  copy), `safe_load` and `include`.
- `YamlDumper`: `_representer` over a tree of scalars, lists and dicts,
  dumper selection, and `safe_dump`.
- `KeyOrderCases`: the concrete orders from the docstrings.

## Model

| member | source | states |
|---|---|---|
| Lexicographic.LexOrder | octodns/yaml.py:54 | Comparing sequences the way Python compares tuples is asymmetric, transitive and total whenever the element order is |
| Lexicographic.LexCommonPrefix | octodns/yaml.py:74 | A common prefix does not change how two sequences compare |
| Numerals.Decimal | octodns/yaml.py:22 | The decimal text of a number is a non-empty digit string with no leading zero that reads back as the number |
| NatSort.NatKeyOrder | octodns/yaml.py:14 | Comparing natural keys is a strict total order |
| NatSort.NatKeyAlternates | octodns/yaml.py:14 | A natural key starts with a text chunk and alternates text and number chunks, so two keys never compare a number with a text |
| NatSort.NatKeyAppendNumeral | octodns/yaml.py:14 | Appending a digit run to a string that does not end in a digit appends one number chunk with the run's value |
| NatSort.NumericSuffixOrder | octodns/yaml.py:90-97 | Two keys that share a prefix and end in digit runs are in natural order exactly when the first run's value is smaller, so a 2 sorts before a 12 |
| NatSort.NatKeyOfText | octodns/yaml.py:14 | A key with no digits is a single text chunk |
| OrderPolicy.KeyOrder | octodns/yaml.py:47-48 | Comparing the sort keys of either policy is a strict total order |
| OrderPolicy.PrecedesIsStrictWeakOrder | octodns/yaml.py:54 | The key order of a policy is irreflexive, asymmetric and transitive, and two keys tie exactly when their sort keys are equal |
| OrderPolicy.SplitAtSeparator | octodns/yaml.py:74 | `(x + '.' + y).split('.')` is the labels of x followed by the labels of y |
| OrderPolicy.SplitJoinRoundTrip | octodns/yaml.py:74 | Joining the labels of `d.split('.')` with dots gives back d, and no label contains a dot |
| OrderPolicy.DnsKeyOfChild | octodns/yaml.py:73-74 | The DNS key of `leaf.parent` is the parent's key followed by the leaf's natural key, because the labels are reversed |
| OrderPolicy.ParentBeforeChild | octodns/yaml.py:107-112 | Under the DNS policy a name sorts before every name directly below it |
| OrderPolicy.SiblingsByLabel | octodns/yaml.py:114-115 | Two names under the same parent are in DNS order exactly when their first labels are in natural order |
| StableSort.SortByFixesExactlyOrdered | octodns/yaml.py:54 | Sorting returns its input unchanged exactly when the input is already in order |
| StableSort.SortByStable | octodns/yaml.py:54 | Elements whose keys tie keep their relative order through the sort |
| StableSort.SortByMapped | octodns/yaml.py:103-104 | Sorting and then mapping every element gives the same result as mapping and then sorting, when the map keeps the sort key |
| YamlLoader.ProvenanceRoundTrip | octodns/yaml.py:22 | The context string names the source and gives the node's line and column counted from 1, and both can be read back from it |
| YamlLoader.PairsSpec | octodns/yaml.py:18-23 | `_pairs` returns the pairs in document order, a dict of those pairs carrying the context, and that context |
| YamlLoader.SortedKeysSpec | octodns/yaml.py:53-54 | The sorted copy of the keys is a permutation in policy order, keeps tied keys in document order, and equals the keys exactly when they are already in order |
| YamlLoader.ConstructChecked | octodns/yaml.py:50-65 | The check returns the context dict exactly when the keys are in policy order. Otherwise the error names the sorted key and the document key at the first position where they differ, and the node's context, and its message is `keys out of order: expected <sorted key> got <key> at <context>` |
| YamlLoader.Construct | octodns/yaml.py:77-78 | The mapping constructor of each loader class raises exactly when that class enforces a policy and the keys break it; the plain ContextLoader never raises; the error is the first-mismatch error of the enforced policy |
| YamlLoader.LoaderFor | octodns/yaml.py:81-86 | `'dns'` selects the DNS loader; any other truthy value selects the natural loader; any falsy value selects the plain ContextLoader |
| YamlLoader.SafeLoad | octodns/yaml.py:81-87 | Loading a mapping fails exactly when the selected loader rejects its keys, with the first-mismatch error of that loader's policy. Otherwise it gives the context dict |
| YamlLoader.Include | octodns/yaml.py:28-35 | An include is always loaded by the natural-order loader, whichever loader met the tag |
| YamlLoader.IncludeIgnoresIncluderPolicy | octodns/yaml.py:35 | From the DNS loader and from the ContextLoader, the include's policy differs from the includer's |
| YamlLoader.IncludeSameLoader | octodns/yaml.py:28-35 | The corrected include resolves the same path and keeps the includer's policy |
| YamlLoader.IncludeResolvesBesideIncluder | octodns/yaml.py:29-32 | A relative include names a file in the includer's directory; an absolute one is taken as written |
| YamlLoader.IncludeFromRoot | octodns/yaml.py:29-32 | An including file directly under the root resolves a relative include under the root; an absolute one is taken as written |
| YamlLoader.IncludeFromBareName | octodns/yaml.py:29-32 | A source name without a directory leaves the include path as written |
| YamlLoader.IncludeStaysInDirectory | octodns/yaml.py:29-32 | Including a plain file name keeps the directory, so nested includes resolve against the same directory |
| PosixPath.DirnameOfEntry | octodns/yaml.py:30 | The directory of `dir/base` is dir |
| YamlDumper.RepresentMapping | octodns/yaml.py:102-104 | A dumped mapping's keys are exactly the sorted copy the loader check of the same policy computes; its items are the input's items, values represented, as a permutation |
| YamlDumper.RepresentAllOrdered | octodns/yaml.py:118-123 | Every mapping of the dumped document, at every depth, has its keys in policy order |
| YamlDumper.RepresentFixesExactlyOrdered | octodns/yaml.py:102-104 | The dumper leaves a document unchanged exactly when every mapping of it is already in order |
| YamlDumper.RepresentIdempotent | octodns/yaml.py:102-104 | Dumping a dumped document again changes nothing |
| YamlDumper.DumperFor | octodns/yaml.py:138 | Only `'dns'` selects the DNS dumper; every other value, `False` included, sorts naturally |
| YamlDumper.LoadAcceptsDump | octodns/yaml.py:138 | Whenever the loader for an `enforce_order` value enforces a policy, it is the dumper's policy, and every mapping the dumper writes passes that loader's check |
| YamlDumper.SafeDump | octodns/yaml.py:126-140 | The options passed to `dump` are the defaults overridden key by key by the caller's options; the dumper is the one `enforce_order` selects; the document is the data represented under its policy |
| KeyOrderCases.TwoBeforeTwelve | octodns/yaml.py:90-97 | `["2", "12"]` passes the natural check and `["12", "2"]` fails it |
| KeyOrderCases.PaddedNumeralsTie | octodns/yaml.py:54 | `a2` and `a02` tie, so the natural check accepts them in both orders |
| KeyOrderCases.BelowEarlierSibling | octodns/yaml.py:114-115 | A name below `x.parent` sorts before `y.parent` whenever x sorts before y |
| KeyOrderCases.DnsDocstringOrder | octodns/yaml.py:107-112 | `a.test.com, sub2.a.test.com, sub10.a.test.com, b.test.com` passes the DNS check |
| KeyOrderCases.DnsSiblingFirstFails | octodns/yaml.py:68-74 | `a.test.com, b.test.com, sub2.a.test.com, sub10.a.test.com` fails the DNS check |

## Left out

- YAML text: tokenising, parsing, emission and quoting (`load`, `dump`, `represent_mapping`, `represent_str`) belong to PyYAML. A mapping node is modelled as its (key, value) pairs in document order plus its start mark. The dumper's output is modelled as the represented tree handed to PyYAML.
- `flatten_mapping` and `construct_pairs`: merge keys, anchors and aliases are PyYAML's. The pairs arrive already flattened and constructed. In Python, the mappings nested in the values are checked while those values are built, so a nested mapping out of order makes the whole load fail. `SafeLoad` checks only the top mapping it is given; each nested mapping is a separate `Construct`.
- Include I/O: `include` opens the resolved file and loads it recursively. The model stops at the path and the loader class it would load with (`IncludeRequest`). `get_mark` is taken as the mark passed in.
- The output stream `fh` of `safe_dump` and the file handles of `safe_load` are left out.
- Registration is left out: `add_constructor`, `add_representer` and the class hierarchy. `Construct` dispatches on the loader class instead.
- `ContextDict` (`octodns/context.py`) is not part of this model. It is kept as its pairs and context string, so keys repeated in a document are not collapsed the way a Python dict would collapse them.
- Keys that are not strings are left out; an unquoted `10:` loads as an int. natsort keys an int the same way as its decimal text. The DNS key raises `AttributeError` on an int rather than a key-order error, because `split` is a `str` method.
- Data: the dumper's data is strings, lists and dicts. Other scalars are treated like strings, and the document is a tree with no shared references.
- natsort: only its default algorithm on ASCII digits is modelled. Unicode digits, floats, signs and locale handling are left out. The key natsort builds, a Python tuple of strings and ints, is shown as a sequence of the `Chunk` datatype.
- natsort normalisation: by default natsort puts text into Unicode NFD form before splitting it. That normalisation is not modelled. Code points are compared as written, so keys with non-ASCII letters may order differently; for example a precomposed `é` sorts after `f` here, while natsort sorts it before.
- OrderError: the check raises `ConstructorError(None, None, message)`. That error carries no marks and no context of its own, and its text is exactly the message. The model keeps the expected key, the actual key and the context string, and gives the text as `OrderError.Message`.

## Findings

| source | as written | input that shows it | evidently intended | confidence | as-written member | corrected member |
|---|---|---|---|---|---|---|
| octodns/yaml.py:35 | `include` passes `self.__class__` as `enforce_order`; a class is truthy and is not `'dns'`, so `safe_load` always picks the natural-order loader for the included file | an `!include` met by `DnsSortEnforcingLoader` (the included file is checked in natural, not DNS, order), or by the plain `ContextLoader` (the included file is checked although the includer is not) | the included file is loaded by the same loader class as the including file | medium, not executed | YamlLoader.IncludeIgnoresIncluderPolicy | YamlLoader.IncludeSameLoader |
