/**
 * An abstract disk for the main process.
 *
 * A path is a sequence of segments, so `path.join` is sequence concatenation
 * and `path.dirname` drops the last segment. The disk records its regular
 * files with their contents, its directories, every other kind of entry
 * (symbolic links, devices, sockets) and the entries on which the operating
 * system refuses the operation aimed at them (listing a directory, reading,
 * writing or unlinking a file).
 */
module Fs {
  import opened Wrappers

  type Name = string
  type Path = seq<Name>

  datatype Disk = Disk(files: map<Path, string>, dirs: set<Path>, others: set<Path>, denied: set<Path>)

  /** `path.dirname`: the path without its last segment; the root is its own parent. */
  function Parent(p: Path): (r: Path)
    ensures |p| > 0 ==> p == r + [p[|p| - 1]]
    ensures |p| == 0 ==> r == []
  {
    if |p| == 0 then [] else p[..|p| - 1]
  }

  /** `fs.existsSync`: some entry, of whatever kind, is at `p`. */
  predicate Exists(d: Disk, p: Path) {
    p in d.files || p in d.dirs || p in d.others
  }

  /**
   * A well-formed disk: the root is a directory, an entry has a single kind,
   * and the parent of every other entry is a directory.
   */
  ghost predicate Valid(d: Disk) {
    && [] in d.dirs
    && (forall p :: p in d.files ==> p !in d.dirs && p !in d.others)
    && (forall p :: p in d.others ==> p !in d.dirs)
    && (forall p :: p in d.dirs && p != [] ==> Parent(p) in d.dirs)
    && (forall p :: p in d.files ==> p != [] && Parent(p) in d.dirs)
    && (forall p :: p in d.others ==> p != [] && Parent(p) in d.dirs)
  }

  /** A directory can be listed when it is one and the system lets us read it. */
  predicate Listable(d: Disk, dir: Path) {
    dir in d.dirs && dir !in d.denied
  }

  /** The names `fs.readdir` reports for `dir`: one per entry directly inside it. */
  function Entries(d: Disk, dir: Path): set<Name> {
    set q | q in d.dirs + d.files.Keys + d.others && |q| == |dir| + 1 && q[..|dir|] == dir :: q[|dir|]
  }

  lemma EntriesMembership(d: Disk, dir: Path, n: Name)
    ensures n in Entries(d, dir) <==> Exists(d, dir + [n])
  {
    var q := dir + [n];
    assert q[..|dir|] == dir && q[|dir|] == n;
    if n in Entries(d, dir) {
      var q' :| q' in d.dirs + d.files.Keys + d.others && |q'| == |dir| + 1 && q'[..|dir|] == dir && q'[|dir|] == n;
      assert q' == q;
    }
  }

  /** The prefixes of `p`, from the empty path up to `p` itself. */
  function Prefixes(p: Path): (r: set<Path>)
    ensures p in r && [] in r
    ensures forall q :: q in r ==> |q| <= |p| && q == p[..|q|]
  {
    assert p[..|p|] == p && p[..0] == [];
    set k | 0 <= k <= |p| :: p[..k]
  }

  /**
   * `fs.mkdir(dir, { recursive: true })`: creates every missing directory on
   * the way to `dir`; fails, creating nothing, when one of those names is taken
   * by an entry that is not a directory.
   */
  function Mkdirp(d: Disk, dir: Path): Option<Disk> {
    if exists q :: q in Prefixes(dir) && (q in d.files || q in d.others) then None
    else Some(d.(dirs := d.dirs + Prefixes(dir)))
  }

  /**
   * `fs.writeFile(p, c)`: replaces or creates the regular file at `p`; fails
   * when the parent is not a directory, when `p` is a directory or another
   * kind of entry, or when writing `p` is refused.
   */
  function WriteFile(d: Disk, p: Path, c: string): Option<Disk> {
    if |p| > 0 && Parent(p) in d.dirs && p !in d.dirs && p !in d.others && p !in d.denied
    then Some(d.(files := d.files[p := c]))
    else None
  }

  /** `fs.readFile(p, 'utf-8')`: the contents of a readable regular file. */
  function ReadFile(d: Disk, p: Path): Option<string> {
    if p in d.files && p !in d.denied then Some(d.files[p]) else None
  }

  /** `fs.unlink(p)`: removes a non-directory entry; fails on a directory, a missing entry or a refusal. */
  function Unlink(d: Disk, p: Path): Option<Disk> {
    if (p in d.files || p in d.others) && p !in d.denied
    then Some(d.(files := d.files - {p}, others := d.others - {p}))
    else None
  }

  /** On a well-formed disk every prefix of a directory is a directory. */
  lemma {:induction false} PrefixesOfDir(d: Disk, p: Path)
    requires Valid(d) && p in d.dirs
    ensures forall q :: q in Prefixes(p) ==> q in d.dirs
    decreases |p|
  {
    if p != [] {
      var pp := Parent(p);
      PrefixesOfDir(d, pp);
      forall q | q in Prefixes(p)
        ensures q in d.dirs
      {
        if |q| < |p| {
          assert q == pp[..|q|];
          assert q in Prefixes(pp);
        } else {
          assert q == p;
        }
      }
    }
  }

  lemma MkdirpKeepsValid(d: Disk, dir: Path)
    requires Valid(d) && Mkdirp(d, dir).Some?
    ensures Valid(Mkdirp(d, dir).value)
  {
    var d' := Mkdirp(d, dir).value;
    forall p | p in d'.dirs && p != []
      ensures Parent(p) in d'.dirs
    {
      if p in Prefixes(dir) {
        assert Parent(p) == dir[..|p| - 1];
      }
    }
  }

  lemma WriteFileKeepsValid(d: Disk, p: Path, c: string)
    requires Valid(d) && WriteFile(d, p, c).Some?
    ensures Valid(WriteFile(d, p, c).value)
  {
  }

  lemma UnlinkKeepsValid(d: Disk, p: Path)
    requires Valid(d) && Unlink(d, p).Some?
    ensures Valid(Unlink(d, p).value)
  {
  }
}
