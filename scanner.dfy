/**
 * The vault directory scanner of main.js (`readDirectory`).
 *
 * The scan walks the directory `root + rel`, keeps the directories whose name
 * does not start with `.` (scanning each one in turn) and the regular files
 * whose name ends in `.md`, and sorts every sibling list with folders first
 * and then by name. A directory that cannot be listed contributes no entries.
 */
module Scanner {
  import opened Wrappers
  import opened Fs

  /** One node of the file tree sent to the renderer: `{ name, path, type, children }`. */
  datatype TreeNode =
    | Folder(name: Name, path: Path, children: seq<TreeNode>)
    | File(name: Name, path: Path)

  /** `name.startsWith('.')` */
  predicate IsHidden(name: Name) {
    |name| > 0 && name[0] == '.'
  }

  /** `name.endsWith('.md')` */
  predicate IsMarkdown(name: Name) {
    |name| >= 3 && name[|name| - 3..] == ".md"
  }

  // ---------------------------------------------------------------------------
  // The comparator of the sort
  // ---------------------------------------------------------------------------

  /** `a.localeCompare(b)`, taken as the lexicographic order of character codes. */
  function NameCompare(a: Name, b: Name): (r: int)
    ensures -1 <= r <= 1
    ensures r == 0 <==> a == b
  {
    if |a| == 0 && |b| == 0 then 0
    else if |a| == 0 then -1
    else if |b| == 0 then 1
    else if a[0] < b[0] then -1
    else if a[0] > b[0] then 1
    else
      assert a == [a[0]] + a[1..] && b == [b[0]] + b[1..];
      NameCompare(a[1..], b[1..])
  }

  lemma {:induction false} NameCompareAntisymmetric(a: Name, b: Name)
    ensures NameCompare(a, b) == -NameCompare(b, a)
  {
    if |a| > 0 && |b| > 0 && a[0] == b[0] {
      NameCompareAntisymmetric(a[1..], b[1..]);
    }
  }

  lemma {:induction false} NameCompareTransitive(a: Name, b: Name, c: Name)
    requires NameCompare(a, b) <= 0 && NameCompare(b, c) <= 0
    ensures NameCompare(a, c) <= 0
  {
    if |a| > 0 && |b| > 0 && |c| > 0 && a[0] == b[0] == c[0] {
      NameCompareTransitive(a[1..], b[1..], c[1..]);
    }
  }

  /** The comparator passed to `items.sort`: folders first, then by name. */
  function Compare(a: TreeNode, b: TreeNode): (r: int)
    ensures -1 <= r <= 1
    ensures r == 0 <==> a.Folder? == b.Folder? && a.name == b.name
    ensures a.Folder? && b.File? ==> r < 0
  {
    if a.Folder? != b.Folder? then
      (if a.Folder? then -1 else 1)
    else
      NameCompare(a.name, b.name)
  }

  lemma CompareAntisymmetric(a: TreeNode, b: TreeNode)
    ensures Compare(a, b) == -Compare(b, a)
  {
    NameCompareAntisymmetric(a.name, b.name);
  }

  lemma CompareTransitive(a: TreeNode, b: TreeNode, c: TreeNode)
    requires Compare(a, b) <= 0 && Compare(b, c) <= 0
    ensures Compare(a, c) <= 0
  {
    if a.Folder? == b.Folder? == c.Folder? {
      NameCompareTransitive(a.name, b.name, c.name);
    }
  }

  // ---------------------------------------------------------------------------
  // The sort
  // ---------------------------------------------------------------------------

  /** Every earlier node compares at most equal to every later one. */
  ghost predicate Sorted(s: seq<TreeNode>) {
    forall i, j :: 0 <= i < j < |s| ==> Compare(s[i], s[j]) <= 0
  }

  /** No two siblings share a name. */
  ghost predicate DistinctNames(s: seq<TreeNode>) {
    forall i, j :: 0 <= i < j < |s| ==> s[i].name != s[j].name
  }

  /**
   * A sorted sibling list with distinct names has every folder before every
   * file, and within each kind strictly increasing names.
   */
  lemma FoldersBeforeFiles(s: seq<TreeNode>)
    requires Sorted(s) && DistinctNames(s)
    ensures forall i, j :: 0 <= i < j < |s| && s[j].Folder? ==> s[i].Folder?
    ensures forall i, j :: 0 <= i < j < |s| && s[i].Folder? == s[j].Folder? ==> NameCompare(s[i].name, s[j].name) < 0
  {
  }

  lemma SortedCons(h: TreeNode, t: seq<TreeNode>)
    requires Sorted(t)
    requires forall y :: y in t ==> Compare(h, y) <= 0
    ensures Sorted([h] + t)
  {
    var s := [h] + t;
    forall i, j | 0 <= i < j < |s| ensures Compare(s[i], s[j]) <= 0 {
      if i > 0 {
        assert s[i] == t[i - 1] && s[j] == t[j - 1];
      } else {
        assert s[j] in t;
      }
    }
  }

  /** Inserts `x` in front of the first node of `s` it does not follow. */
  function Insert(x: TreeNode, s: seq<TreeNode>): (r: seq<TreeNode>)
    ensures multiset(r) == multiset(s) + multiset{x}
  {
    if s == [] then [x]
    else if Compare(x, s[0]) <= 0 then [x] + s
    else
      assert s == [s[0]] + s[1..];
      [s[0]] + Insert(x, s[1..])
  }

  lemma SortedTail(a: seq<TreeNode>)
    requires |a| > 0 && Sorted(a)
    ensures Sorted(a[1..])
  {
    var t := a[1..];
    forall p, q | 0 <= p < q < |t| ensures Compare(t[p], t[q]) <= 0 {
      assert t[p] == a[p + 1] && t[q] == a[q + 1];
    }
  }

  lemma {:induction false} InsertSorted(x: TreeNode, s: seq<TreeNode>)
    requires Sorted(s)
    ensures Sorted(Insert(x, s))
  {
    if s == [] {
    } else if Compare(x, s[0]) <= 0 {
      forall y | y in s ensures Compare(x, y) <= 0 {
        if y != s[0] { CompareTransitive(x, s[0], y); }
      }
      SortedCons(x, s);
    } else {
      assert s == [s[0]] + s[1..];
      SortedTail(s);
      InsertSorted(x, s[1..]);
      var t := Insert(x, s[1..]);
      forall y | y in t ensures Compare(s[0], y) <= 0 {
        assert y in multiset(t);
        if y == x { CompareAntisymmetric(x, s[0]); }
      }
      SortedCons(s[0], t);
    }
  }

  lemma DistinctCons(h: TreeNode, t: seq<TreeNode>)
    requires DistinctNames(t)
    requires forall y :: y in t ==> y.name != h.name
    ensures DistinctNames([h] + t)
  {
    var s := [h] + t;
    forall i, j | 0 <= i < j < |s| ensures s[i].name != s[j].name {
      if i > 0 {
        assert s[i] == t[i - 1] && s[j] == t[j - 1];
      } else {
        assert s[j] in t;
      }
    }
  }

  lemma {:induction false} InsertDistinct(x: TreeNode, s: seq<TreeNode>)
    requires DistinctNames(s)
    requires forall y :: y in s ==> y.name != x.name
    ensures DistinctNames(Insert(x, s))
  {
    if s == [] {
    } else if Compare(x, s[0]) <= 0 {
      DistinctCons(x, s);
    } else {
      assert s == [s[0]] + s[1..];
      var t := Insert(x, s[1..]);
      InsertDistinct(x, s[1..]);
      forall y | y in t ensures y.name != s[0].name {
        assert y in multiset(t);
      }
      DistinctCons(s[0], t);
    }
  }

  /** `items.sort(...)`: a sorted permutation of `s`. */
  function SortNodes(s: seq<TreeNode>): (r: seq<TreeNode>)
    ensures Sorted(r)
    ensures multiset(r) == multiset(s)
  {
    if s == [] then []
    else
      assert s == [s[0]] + s[1..];
      var t := SortNodes(s[1..]);
      InsertSorted(s[0], t);
      Insert(s[0], t)
  }

  lemma {:induction false} SortNodesDistinct(s: seq<TreeNode>)
    requires DistinctNames(s)
    ensures DistinctNames(SortNodes(s))
  {
    if s != [] {
      assert s == [s[0]] + s[1..];
      var t := SortNodes(s[1..]);
      SortNodesDistinct(s[1..]);
      forall y | y in t ensures y.name != s[0].name {
        assert y in multiset(t);
        var j :| 0 <= j < |s[1..]| && s[1..][j] == y;
        assert s[j + 1] == y;
      }
      InsertDistinct(s[0], t);
    }
  }

  // ---------------------------------------------------------------------------
  // What a scan produces
  // ---------------------------------------------------------------------------

  /** The directories strictly below `dir`; it shrinks at every level of the walk. */
  ghost function Below(d: Disk, dir: Path): set<Path> {
    set q | q in d.dirs && |dir| < |q| && q[..|dir|] == dir
  }

  lemma BelowShrinks(d: Disk, dir: Path, name: Name)
    requires dir + [name] in d.dirs
    ensures Below(d, dir + [name]) < Below(d, dir)
  {
    var c := dir + [name];
    assert c[..|dir|] == dir;
    assert c in Below(d, dir) && c !in Below(d, c);
    forall q | q in Below(d, c) ensures q in Below(d, dir) {
      assert q[..|dir|] == q[..|c|][..|dir|];
    }
  }

  /** The entry `name` of `dir` is shown in the tree. */
  predicate Shown(d: Disk, dir: Path, name: Name) {
    if dir + [name] in d.dirs then !IsHidden(name)
    else dir + [name] in d.files && IsMarkdown(name)
  }

  /**
   * `node` is what the scan of `root + rel` emits for one of its entries:
   * its path is `rel` extended by its name; a folder is a directory whose
   * name does not start with `.` and whose children are the scan of that
   * directory; a file is a regular file (not a directory) named `*.md`.
   */
  ghost predicate NodeOk(d: Disk, root: Path, rel: Path, node: TreeNode)
    decreases Below(d, root + rel), 0
  {
    var full := root + rel + [node.name];
    && node.path == rel + [node.name]
    && match node
       case Folder(name, _, children) =>
         && full in d.dirs
         && !IsHidden(name)
         && (BelowShrinks(d, root + rel, name);
             assert root + (rel + [name]) == full;
             ScanOf(d, root, rel + [name], children))
       case File(name, _) =>
         full !in d.dirs && full in d.files && IsMarkdown(name)
  }

  /**
   * `items` is a scan of the directory `root + rel`: empty when it cannot be
   * listed; otherwise one node for each shown entry and no other, no name
   * twice, sorted by `Compare`.
   */
  ghost predicate ScanOf(d: Disk, root: Path, rel: Path, items: seq<TreeNode>)
    decreases Below(d, root + rel), 1
  {
    && (!Listable(d, root + rel) ==> items == [])
    && (forall k :: 0 <= k < |items| ==> NodeOk(d, root, rel, items[k]))
    && (Listable(d, root + rel) ==>
          forall n :: Shown(d, root + rel, n) ==> exists k :: 0 <= k < |items| && items[k].name == n)
    && DistinctNames(items)
    && Sorted(items)
  }

  // ---------------------------------------------------------------------------
  // The scan
  // ---------------------------------------------------------------------------

  /**
   * `fs.readdir(dir)`: the names in `dir`, each once, in an order the
   * operating system chooses; `None` when the directory cannot be listed.
   */
  method ReadDir(d: Disk, dir: Path) returns (r: Option<seq<Name>>)
    ensures r.None? <==> !Listable(d, dir)
    ensures r.Some? ==> forall n :: n in r.value <==> n in Entries(d, dir)
    ensures r.Some? ==> forall i, j :: 0 <= i < j < |r.value| ==> r.value[i] != r.value[j]
  {
    if !Listable(d, dir) {
      return None;
    }
    var rest := Entries(d, dir);
    var names: seq<Name> := [];
    while rest != {}
      invariant rest <= Entries(d, dir)
      invariant forall n :: n in names <==> n in Entries(d, dir) && n !in rest
      invariant forall i, j :: 0 <= i < j < |names| ==> names[i] != names[j]
      decreases rest
    {
      var n :| n in rest;
      names := names + [n];
      rest := rest - {n};
    }
    return Some(names);
  }

  /** `readDirectory(root + rel)` with `vaultPath == root`. */
  method ReadDirectory(d: Disk, root: Path, rel: Path) returns (items: seq<TreeNode>)
    ensures ScanOf(d, root, rel, items)
    decreases Below(d, root + rel)
  {
    var dir := root + rel;
    var acc: seq<TreeNode> := [];
    var listing := ReadDir(d, dir);
    if listing.Some? {
      var entries := listing.value;
      var i := 0;
      while i < |entries|
        invariant 0 <= i <= |entries|
        invariant forall k :: 0 <= k < |acc| ==> NodeOk(d, root, rel, acc[k])
        invariant forall k :: 0 <= k < |acc| ==> acc[k].name in entries[..i]
        invariant DistinctNames(acc)
        invariant forall n :: n in entries[..i] && Shown(d, dir, n) ==> exists k :: 0 <= k < |acc| && acc[k].name == n
      {
        var name := entries[i];
        var full := dir + [name];
        var relPath := rel + [name];
        assert root + relPath == full;
        assert entries[..i + 1] == entries[..i] + [name];
        ghost var prev := acc;
        if full in d.dirs {
          if !IsHidden(name) {
            BelowShrinks(d, dir, name);
            var children := ReadDirectory(d, root, relPath);
            acc := acc + [Folder(name, relPath, children)];
          }
        } else if full in d.files && IsMarkdown(name) {
          acc := acc + [File(name, relPath)];
        }
        assert forall k :: 0 <= k < |prev| ==> acc[k] == prev[k];
        assert Shown(d, dir, name) ==> acc[|acc| - 1].name == name;
        i := i + 1;
      }
      assert entries[..i] == entries;
      forall n | Shown(d, dir, n)
        ensures exists k :: 0 <= k < |acc| && acc[k].name == n
      {
        EntriesMembership(d, dir, n);
      }
    }
    items := SortNodes(acc);
    SortedScan(d, root, rel, acc);
  }

  /** Sorting the nodes collected for a directory gives its scan. */
  lemma SortedScan(d: Disk, root: Path, rel: Path, acc: seq<TreeNode>)
    requires !Listable(d, root + rel) ==> acc == []
    requires forall k :: 0 <= k < |acc| ==> NodeOk(d, root, rel, acc[k])
    requires DistinctNames(acc)
    requires Listable(d, root + rel) ==>
               forall n :: Shown(d, root + rel, n) ==> exists k :: 0 <= k < |acc| && acc[k].name == n
    ensures ScanOf(d, root, rel, SortNodes(acc))
  {
    var items := SortNodes(acc);
    SortNodesDistinct(acc);
    forall k | 0 <= k < |items|
      ensures NodeOk(d, root, rel, items[k])
    {
      assert items[k] in multiset(acc);
    }
    forall n | Listable(d, root + rel) && Shown(d, root + rel, n)
      ensures exists k :: 0 <= k < |items| && items[k].name == n
    {
      var j :| 0 <= j < |acc| && acc[j].name == n;
      assert acc[j] in multiset(items);
    }
  }

  // ---------------------------------------------------------------------------
  // Properties of a scan
  // ---------------------------------------------------------------------------

  /**
   * The shape promised for the whole tree: at every depth a node's path is
   * its parent's path extended by its name, no folder is hidden, every file
   * is named `*.md`, and every sibling list is sorted with distinct names.
   */
  ghost predicate TreeShape(rel: Path, items: seq<TreeNode>)
    decreases items
  {
    && Sorted(items)
    && DistinctNames(items)
    && forall k :: 0 <= k < |items| ==>
         && items[k].path == rel + [items[k].name]
         && (items[k].Folder? ==> !IsHidden(items[k].name) && TreeShape(items[k].path, items[k].children))
         && (items[k].File? ==> IsMarkdown(items[k].name))
  }

  lemma {:induction false} ScanHasTreeShape(d: Disk, root: Path, rel: Path, items: seq<TreeNode>)
    requires ScanOf(d, root, rel, items)
    ensures TreeShape(rel, items)
    decreases Below(d, root + rel)
  {
    forall k | 0 <= k < |items| && items[k].Folder?
      ensures TreeShape(items[k].path, items[k].children)
    {
      var name := items[k].name;
      BelowShrinks(d, root + rel, name);
      assert root + (rel + [name]) == root + rel + [name];
      ScanHasTreeShape(d, root, rel + [name], items[k].children);
    }
  }

  /** A node the scan emits stands for an entry that is shown. */
  lemma NodeOkShown(d: Disk, root: Path, rel: Path, node: TreeNode)
    requires NodeOk(d, root, rel, node)
    ensures Shown(d, root + rel, node.name)
    ensures node.Folder? <==> root + rel + [node.name] in d.dirs
  {
  }

  /**
   * A failure to list a subdirectory stays inside it: the folder is still in
   * its parent's list, with no children.
   */
  lemma UnlistableFolderIsEmpty(d: Disk, root: Path, rel: Path, items: seq<TreeNode>, k: int)
    requires ScanOf(d, root, rel, items) && 0 <= k < |items| && items[k].Folder?
    requires !Listable(d, root + rel + [items[k].name])
    ensures items[k].children == []
  {
    var name := items[k].name;
    assert NodeOk(d, root, rel, items[k]);
    assert ScanOf(d, root, rel + [name], items[k].children);
    assert root + (rel + [name]) == root + rel + [name];
    assert !Listable(d, root + (rel + [name]));
  }

  /** Two nodes of the same kind and name: the comparator cannot tell them apart. */
  predicate SameKey(x: TreeNode, y: TreeNode) {
    x.Folder? == y.Folder? && x.name == y.name
  }

  /** The position of a node of `x`'s key in `s`, or -1 when there is none. */
  function KeyIndex(s: seq<TreeNode>, x: TreeNode): (r: int)
    ensures -1 <= r < |s|
    ensures r >= 0 ==> SameKey(x, s[r])
    ensures r < 0 ==> forall j :: 0 <= j < |s| ==> !SameKey(x, s[j])
  {
    if |s| == 0 then -1
    else if SameKey(x, s[0]) then 0
    else
      var k := KeyIndex(s[1..], x);
      assert forall j :: 1 <= j < |s| ==> s[j] == s[1..][j - 1];
      if k < 0 then -1 else k + 1
  }

  /** Every key of `a` is somewhere in `b`. */
  ghost predicate KeysIn(a: seq<TreeNode>, b: seq<TreeNode>) {
    forall i :: 0 <= i < |a| ==> KeyIndex(b, a[i]) >= 0
  }

  lemma SortedDistinctTail(a: seq<TreeNode>)
    requires |a| > 0 && Sorted(a) && DistinctNames(a)
    ensures Sorted(a[1..]) && DistinctNames(a[1..])
  {
    SortedTail(a);
    var t := a[1..];
    forall p, q | 0 <= p < q < |t| ensures t[p].name != t[q].name {
      assert t[p] == a[p + 1] && t[q] == a[q + 1];
    }
  }

  lemma CompareRespectsKey(x: TreeNode, x': TreeNode, y: TreeNode)
    requires SameKey(x, x')
    ensures Compare(x, y) == Compare(x', y)
  {
  }

  /** The head of a sorted list compares at most equal to each of its nodes. */
  lemma HeadIsLeast(a: seq<TreeNode>, i: int)
    requires Sorted(a) && 0 <= i < |a|
    ensures Compare(a[0], a[i]) <= 0
  {
  }

  /** The least key of two sorted lists with the same keys is the same. */
  lemma HeadsMatch(a: seq<TreeNode>, b: seq<TreeNode>)
    requires |a| > 0 && |b| > 0
    requires Sorted(a) && Sorted(b)
    requires KeysIn(a, b) && KeysIn(b, a)
    ensures SameKey(a[0], b[0])
  {
    var x, y := a[0], b[0];
    var j := KeyIndex(b, x);
    var i := KeyIndex(a, y);
    HeadIsLeast(b, j);
    HeadIsLeast(a, i);
    CompareRespectsKey(x, b[j], y);
    CompareRespectsKey(y, a[i], x);
    CompareAntisymmetric(y, b[j]);
    CompareAntisymmetric(x, a[i]);
    CompareAntisymmetric(x, y);
  }

  /** Once the heads agree, the tails hold the same keys. */
  lemma TailKeysIn(a: seq<TreeNode>, b: seq<TreeNode>)
    requires |a| > 0 && |b| > 0
    requires DistinctNames(a) && KeysIn(a, b) && SameKey(a[0], b[0])
    ensures KeysIn(a[1..], b[1..])
  {
    var a', b' := a[1..], b[1..];
    forall i' | 0 <= i' < |a'| ensures KeyIndex(b', a'[i']) >= 0 {
      var u := a[i' + 1];
      assert u == a'[i'];
      var jj := KeyIndex(b, u);
      assert jj != 0 by {
        assert a[0].name != a[i' + 1].name;
      }
      assert b'[jj - 1] == b[jj];
    }
  }

  /** Two sorted sibling lists that hold the same (kind, name) keys hold them in the same order. */
  lemma {:induction false} SameKeysSameOrder(a: seq<TreeNode>, b: seq<TreeNode>)
    requires Sorted(a) && DistinctNames(a) && Sorted(b) && DistinctNames(b)
    requires KeysIn(a, b) && KeysIn(b, a)
    ensures |a| == |b|
    ensures forall i :: 0 <= i < |a| ==> SameKey(a[i], b[i])
  {
    if |a| > 0 {
      assert KeyIndex(b, a[0]) >= 0;
    }
    if |b| > 0 {
      assert KeyIndex(a, b[0]) >= 0;
    }
    if |a| > 0 && |b| > 0 {
      HeadsMatch(a, b);
      TailKeysIn(a, b);
      TailKeysIn(b, a);
      SortedDistinctTail(a);
      SortedDistinctTail(b);
      SameKeysSameOrder(a[1..], b[1..]);
      forall k | 0 <= k < |a| ensures SameKey(a[k], b[k]) {
        if k > 0 { assert a[k] == a[1..][k - 1] && b[k] == b[1..][k - 1]; }
      }
    }
  }

  /** Every node of one scan of a directory has its key in any other scan of it. */
  lemma ScanKeysIn(d: Disk, root: Path, rel: Path, a: seq<TreeNode>, b: seq<TreeNode>)
    requires ScanOf(d, root, rel, a) && ScanOf(d, root, rel, b)
    requires Listable(d, root + rel)
    ensures KeysIn(a, b)
  {
    forall i | 0 <= i < |a| ensures KeyIndex(b, a[i]) >= 0 {
      var x := a[i];
      NodeOkShown(d, root, rel, x);
      var j :| 0 <= j < |b| && b[j].name == x.name;
      var y := b[j];
      NodeOkShown(d, root, rel, y);
      assert SameKey(x, y);
    }
  }

  /** The scan is deterministic: a directory has exactly one scan, whatever order `readdir` used. */
  lemma {:induction false} ScanUnique(d: Disk, root: Path, rel: Path, a: seq<TreeNode>, b: seq<TreeNode>)
    requires ScanOf(d, root, rel, a) && ScanOf(d, root, rel, b)
    ensures a == b
    decreases Below(d, root + rel)
  {
    var dir := root + rel;
    if Listable(d, dir) {
      ScanKeysIn(d, root, rel, a, b);
      ScanKeysIn(d, root, rel, b, a);
      SameKeysSameOrder(a, b);
      forall k | 0 <= k < |a| ensures a[k] == b[k] {
        NodeEqual(d, root, rel, a[k], b[k]);
      }
    }
  }

  /** Two nodes of the same key emitted for the same directory are equal. */
  lemma {:induction false} NodeEqual(d: Disk, root: Path, rel: Path, x: TreeNode, y: TreeNode)
    requires NodeOk(d, root, rel, x) && NodeOk(d, root, rel, y) && SameKey(x, y)
    ensures x == y
    decreases Below(d, root + rel), 0
  {
    if x.Folder? {
      var name := x.name;
      BelowShrinks(d, root + rel, name);
      assert root + (rel + [name]) == root + rel + [name];
      ScanUnique(d, root, rel + [name], x.children, y.children);
    }
  }
}
