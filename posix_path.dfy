/** `os.path.dirname` and `os.path.join` on POSIX, for one directory and one name. */
module PosixPath {

  predicate AllSlashes(s: string) {
    forall i :: 0 <= i < |s| ==> s[i] == '/'
  }

  /** `p.rfind('/') + 1`: the length of `p` up to and including its last slash. */
  function HeadLen(p: string): (n: nat)
    ensures n <= |p|
    ensures n > 0 ==> p[n - 1] == '/'
    ensures forall i :: n <= i < |p| ==> p[i] != '/'
    decreases |p|
  {
    if p == [] then 0 else if p[|p| - 1] == '/' then |p| else HeadLen(p[..|p| - 1])
  }

  /** The three properties in HeadLen's contract determine it. */
  lemma HeadLenUnique(p: string, n: nat)
    requires n <= |p|
    requires n > 0 ==> p[n - 1] == '/'
    requires forall i :: n <= i < |p| ==> p[i] != '/'
    ensures HeadLen(p) == n
  {
  }

  /** `s.rstrip('/')`. */
  function RStripSlashes(s: string): (r: string)
    ensures |r| <= |s| && r == s[..|r|]
    ensures r == [] || r[|r| - 1] != '/'
    ensures forall i :: |r| <= i < |s| ==> s[i] == '/'
    decreases |s|
  {
    if s != [] && s[|s| - 1] == '/' then RStripSlashes(s[..|s| - 1]) else s
  }

  /** `os.path.dirname(p)`: everything before the last slash, trailing slashes removed unless only slashes remain. */
  function Dirname(p: string): string {
    var head := p[..HeadLen(p)];
    if head != [] && !AllSlashes(head) then RStripSlashes(head) else head
  }

  /** `os.path.join(a, b)`. */
  function Join(a: string, b: string): string {
    if b != [] && b[0] == '/' then b
    else if a == [] || a[|a| - 1] == '/' then a + b
    else a + "/" + b
  }

  /** A directory name is empty, only slashes, or ends in something other than a slash. */
  lemma DirnameShape(p: string)
    ensures var d := Dirname(p); d == [] || AllSlashes(d) || d[|d| - 1] != '/'
  {
  }

  /** The directory of `dir/base` is `dir`, whatever slashes `dir` holds inside. */
  lemma DirnameOfEntry(dir: string, base: string)
    requires dir != [] && dir[|dir| - 1] != '/'
    requires '/' !in base
    ensures Dirname(dir + "/" + base) == dir
  {
    var p := dir + "/" + base;
    assert p[|dir|] == '/';
    assert forall i :: |dir| < i < |p| ==> p[i] == base[i - |dir| - 1];
    assert HeadLen(p) == |dir| + 1;
    var head := p[..|dir| + 1];
    assert head == dir + "/";
    assert !AllSlashes(head) by {
      assert head[|dir| - 1] == dir[|dir| - 1];
    }
    assert RStripSlashes(head) == dir;
  }

  /** A name without a slash has an empty directory. */
  lemma DirnameOfBareName(base: string)
    requires '/' !in base
    ensures Dirname(base) == []
  {
  }

  /** A name directly under the root has the root as its directory. */
  lemma DirnameAtRoot(base: string)
    requires '/' !in base
    ensures Dirname("/" + base) == "/"
  {
    var p := "/" + base;
    assert forall i :: 1 <= i < |p| ==> p[i] == base[i - 1];
    HeadLenUnique(p, 1);
    assert p[..1] == "/";
  }
}
