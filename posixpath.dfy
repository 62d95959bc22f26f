/**
 * The part of `os.path` on POSIX that the TIFF-to-JPEG script uses: the final
 * component of a path and `splitext`, which splits off an extension at the last '.'
 * of the final component unless everything before that '.' in the component is dots.
 */
module PosixPath {
  import opened PyStr

  /** What follows the last '/' of `p` (all of `p` when it has none), as `os.path.basename`. */
  function Basename(p: string): (b: string)
    ensures '/' !in b
    ensures EndsWith(p, b)
    ensures |b| < |p| ==> p[|p| - |b| - 1] == '/'
  {
    p[Rfind(p, '/') + 1..]
  }

  /** Every character of `s` is a '.' (true of the empty string). */
  predicate AllDots(s: string)
  {
    forall k :: 0 <= k < |s| ==> s[k] == '.'
  }

  /**
   * `os.path.splitext(p)` on POSIX: `(root, ext)` with `root + ext == p`. The extension
   * starts at the last '.' of `p` when that '.' lies in the final component and the
   * component has some other character before it (so ".bashrc" has no extension);
   * otherwise it is empty.
   */
  function Splitext(p: string): (r: (string, string))
    ensures r.0 + r.1 == p
    ensures r.1 == [] || r.1[0] == '.'
    ensures forall k :: 1 <= k < |r.1| ==> r.1[k] != '.'
    ensures forall k :: 0 <= k < |r.1| ==> r.1[k] != '/'
  {
    var sepIndex := Rfind(p, '/');
    var dotIndex := Rfind(p, '.');
    if dotIndex > sepIndex && !AllDots(p[sepIndex + 1..dotIndex]) then
      SuffixFromLastDot(p, sepIndex, dotIndex);
      (p[..dotIndex], p[dotIndex..])
    else
      (p, [])
  }

  /** What follows the last '.' of `p`, when it also follows the last '/', holds neither. */
  lemma SuffixFromLastDot(p: string, sepIndex: int, dotIndex: int)
    requires sepIndex == Rfind(p, '/') && dotIndex == Rfind(p, '.') && dotIndex > sepIndex
    ensures p[..dotIndex] + p[dotIndex..] == p
    ensures p[dotIndex..][0] == '.'
    ensures forall k :: 1 <= k < |p[dotIndex..]| ==> p[dotIndex..][k] != '.'
    ensures forall k :: 0 <= k < |p[dotIndex..]| ==> p[dotIndex..][k] != '/'
  {
    var ext := p[dotIndex..];
    forall k | 0 <= k < |ext|
      ensures ext[k] != '/' && (k >= 1 ==> ext[k] != '.')
    {
      assert ext[k] == p[dotIndex + k];
    }
  }

  /** Appending text free of `c` does not move the last `c`. */
  lemma {:induction false} RfindAppendFree(a: string, b: string, c: char)
    requires c !in b
    ensures Rfind(a + b, c) == Rfind(a, c)
  {
    if b != [] {
      assert (a + b)[..|a + b| - 1] == a + b[..|b| - 1];
      RfindAppendFree(a, b[..|b| - 1], c);
    } else {
      assert a + b == a;
    }
  }

  /**
   * A non-empty extension is split off only when the root's final component has a
   * character other than '.'.
   */
  lemma SplitextExtensionNeedsName(p: string)
    requires Splitext(p).1 != []
    ensures !AllDots(Basename(Splitext(p).0))
  {
    var sepIndex := Rfind(p, '/');
    var dotIndex := Rfind(p, '.');
    var root := p[..dotIndex];
    assert p == root + p[dotIndex..];
    if sepIndex >= 0 {
      assert root == p[..sepIndex] + ['/'] + p[sepIndex + 1..dotIndex];
      RfindBeforeFree(p[..sepIndex], '/', p[sepIndex + 1..dotIndex]);
    } else {
      assert '/' !in root;
      RfindAppendFree([], root, '/');
      assert [] + root == root;
    }
    assert Basename(root) == p[sepIndex + 1..dotIndex];
  }

  /**
   * The converse: a path that is a root whose final component has a non-dot character,
   * then '.', then text free of '.' and '/', splits into exactly that root and extension.
   */
  lemma SplitextOf(root: string, e: string)
    requires '.' !in e && '/' !in e
    requires !AllDots(Basename(root))
    ensures Splitext(root + ['.'] + e) == (root, ['.'] + e)
  {
    var p := root + ['.'] + e;
    RfindBeforeFree(root, '.', e);
    assert p == root + (['.'] + e);
    RfindAppendFree(root, ['.'] + e, '/');
    var sepIndex := Rfind(p, '/');
    assert p[sepIndex + 1..|root|] == Basename(root);
    assert p[..|root|] == root;
    assert p[|root|..] == ['.'] + e;
  }
}
