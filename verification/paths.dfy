/**
 * Path strings as the filter sees them. A location is a sequence of
 * directory-entry names; joining it with `/` gives the string Python builds
 * with `os.path.join`, `os.path.relpath` and `os.path.abspath` for entries
 * found by `os.listdir` (already normalised: no `.`, `..` or empty names).
 */
module Paths {

  import opened Wrappers
  import opened Strings

  /** `os.path.basename` of an entry: its own name. */
  function Basename(rel: seq<string>): string
    requires rel != []
  {
    rel[|rel| - 1]
  }

  /** `os.path.relpath(item, start=repo_path)` for the entry at `rel` below the root. */
  function RelPath(rel: seq<string>): string
  {
    Join(rel, '/')
  }

  /** `os.path.abspath` of the location with absolute segments `segs`; the root itself is `/`. */
  function AbsPath(segs: seq<string>): string
  {
    "/" + Join(segs, '/')
  }

  /**
   * `os.path.join(path, item)` one level down: the child's relative path
   * is the parent's, a `/`, and the child's name.
   */
  lemma RelPathChild(rel: seq<string>, name: string)
    requires rel != []
    ensures RelPath(rel + [name]) == RelPath(rel) + "/" + name
  {
    JoinAppend(rel, [name], '/');
  }

  /**
   * The absolute path of an entry is the root's absolute path, a `/`, and
   * the entry's relative path; directly below `/` there is no second slash.
   */
  lemma AbsPathJoinsRelPath(root: seq<string>, rel: seq<string>)
    requires rel != []
    ensures root != [] ==> AbsPath(root + rel) == AbsPath(root) + "/" + RelPath(rel)
    ensures root == [] ==> AbsPath(root + rel) == "/" + RelPath(rel)
  {
    if root != [] {
      JoinAppend(root, rel, '/');
    } else {
      assert root + rel == rel;
    }
  }

  /**
   * Round trip: for names without `/`, splitting the relative path on `/`
   * gives the location back, and the base name is its last piece.
   */
  lemma RelPathSplits(rel: seq<string>)
    requires rel != []
    requires forall i :: 0 <= i < |rel| ==> '/' !in rel[i]
    ensures Split(RelPath(rel), '/') == rel
    ensures Basename(rel) == Split(RelPath(rel), '/')[|rel| - 1]
  {
    SplitJoin(rel, '/');
  }

  /**
   * `os.path.splitext(name)[1]`: the suffix from the last dot on, or empty
   * when there is no dot or when only dots precede the last one (so `.env`
   * and `..` have no extension, `a.` has extension `.`).
   */
  function Ext(name: string): (r: string)
    ensures r == [] || (&& r[0] == '.'
                        && '.' !in r[1..]
                        && |r| < |name|
                        && r == name[|name| - |r|..]
                        && exists i :: 0 <= i < |name| - |r| && name[i] != '.')
    ensures r == [] ==> forall i, j :: 0 <= i < j < |name| && name[j] == '.' ==> name[i] == '.'
  {
    match LastIndexOf(name, '.')
    case None => []
    case Some(d) =>
      if exists i :: 0 <= i < d && name[i] != '.' then
        assert name[d..][1..] == name[d + 1..];
        name[d..]
      else
        []
  }

  /** The extension the filter compares: `os.path.splitext(name)[1].lower()`. */
  function FileExt(name: string): (r: string)
  {
    Lower(Ext(name))
  }

  /**
   * Conversely, the extension is the suffix from the last dot whenever some
   * character before that dot is not a dot (`a.tar.gz` has `.gz`).
   */
  lemma ExtFromLastDot(name: string, k: nat)
    requires k < |name| && name[k] == '.' && '.' !in name[k + 1..]
    requires exists i :: 0 <= i < k && name[i] != '.'
    ensures Ext(name) == name[k..]
  {
    var d := LastIndexOf(name, '.');
    assert d.Some? && name[d.value] == '.';
    forall j | k < j < |name|
      ensures name[j] != '.'
    {
      assert name[k + 1..][j - k - 1] == name[j];
    }
    forall j | d.value < j < |name|
      ensures name[j] != '.'
    {
      assert name[d.value + 1..][j - d.value - 1] == name[j];
    }
    assert d.value == k;
  }

  /** Names whose only dot is leading, and names without a dot, have no extension. */
  lemma NoExtensionCases(name: string)
    ensures '.' !in name ==> Ext(name) == []
    ensures |name| > 0 && name[0] == '.' && '.' !in name[1..] ==> Ext(name) == []
  {
  }

  /** The extension is found case-insensitively: names differing only in ASCII case share it. */
  lemma FileExtIgnoresCase(a: string, b: string)
    requires Lower(a) == Lower(b)
    ensures FileExt(a) == FileExt(b)
  {
    assert |a| == |b|;
    forall i | 0 <= i < |a|
      ensures a[i] == '.' <==> b[i] == '.'
    {
      assert LowerChar(a[i]) == LowerChar(b[i]);
    }
    var ra, rb := Ext(a), Ext(b);
    ExtSameDots(a, b);
    assert Lower(ra) == Lower(a)[|a| - |ra|..];
    LowerSlice(a, |a| - |ra|);
    LowerSlice(b, |b| - |rb|);
  }

  lemma LowerSlice(s: string, k: nat)
    requires k <= |s|
    ensures Lower(s[k..]) == Lower(s)[k..]
  {
  }

  /** Two names with dots in the same positions have extensions of the same length. */
  lemma ExtSameDots(a: string, b: string)
    requires |a| == |b|
    requires forall i :: 0 <= i < |a| ==> (a[i] == '.' <==> b[i] == '.')
    ensures |Ext(a)| == |Ext(b)|
  {
  }
}
