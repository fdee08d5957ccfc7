/** The index key of a document: `Path(filename).stem`, the final path
    component with its last extension removed, following pathlib's rule
    that a dot counts as an extension separator only when it is neither
    the first nor the last character of the name. */
module Paths {

  /** Position of the last occurrence of `c` in `s`, or -1 (Python's `rfind`). */
  function LastIndexOf(s: string, c: char): (r: int)
    ensures -1 <= r < |s|
    ensures r >= 0 ==> s[r] == c
    ensures forall j :: r < j < |s| ==> s[j] != c
  {
    if s == [] then -1
    else if s[|s| - 1] == c then |s| - 1
    else LastIndexOf(s[..|s| - 1], c)
  }

  /** The final path component: everything after the last '/'. */
  function Name(path: string): (n: string)
    ensures '/' !in n
    ensures |n| <= |path| && n == path[|path| - |n|..]
    ensures '/' !in path ==> n == path
    ensures |n| < |path| ==> path[|path| - |n| - 1] == '/'
  {
    path[LastIndexOf(path, '/') + 1..]
  }

  /** The final component without its last suffix. */
  function Stem(path: string): (r: string)
    ensures '/' !in r
    ensures |r| <= |Name(path)| && r == Name(path)[..|r|]
    ensures r != Name(path) ==>
      0 < |r| < |Name(path)| - 1 && Name(path)[|r|] == '.' && '.' !in Name(path)[|r| + 1..]
  {
    var n := Name(path);
    var i := LastIndexOf(n, '.');
    if 0 < i < |n| - 1 then n[..i] else n
  }

  /** Appending a separator and a separator-free tail puts the last
      occurrence of the separator right after `s`. */
  lemma {:induction false} LastIndexOfBeforeTail(s: string, c: char, t: string)
    requires c !in t
    ensures LastIndexOf(s + [c] + t, c) == |s|
  {
    var u := s + [c] + t;
    assert u[|s|] == c;
  }

  /** A plain name `base.ext` (non-empty base, non-empty dot-free extension)
      is keyed by `base`: the extension is stripped, earlier dots are kept. */
  lemma {:induction false} StemOfExtension(base: string, ext: string)
    requires base != "" && ext != ""
    requires '/' !in base && '/' !in ext && '.' !in ext
    ensures Stem(base + "." + ext) == base
  {
    var n := base + "." + ext;
    assert '/' !in n by {
      forall j | 0 <= j < |n| ensures n[j] != '/' {
        if j < |base| { assert n[j] == base[j]; }
        else if j > |base| { assert n[j] == ext[j - |base| - 1]; }
      }
    }
    assert Name(n) == n;
    LastIndexOfBeforeTail(base, '.', ext);
    assert n[..|base|] == base;
  }

  /** A name without any dot is its own key. */
  lemma NoExtension(path: string)
    requires '/' !in path && '.' !in path
    ensures Stem(path) == path
  {
  }

  /** The extension of `base.ext` is what follows the base and its dot. */
  lemma ExtensionAfterBase(base: string, ext: string)
    ensures (base + "." + ext)[|base| + 1..] == ext
  {
  }

  /** Distinct uploads can share an index key: `base.pdf` and `base.txt`,
      or any two names differing only in a plain extension, are both keyed
      by the base name, so the later index replaces the earlier one. */
  lemma {:induction false} SharedKey(base: string, ext1: string, ext2: string)
    requires base != "" && '/' !in base
    requires ext1 != "" && '/' !in ext1 && '.' !in ext1
    requires ext2 != "" && '/' !in ext2 && '.' !in ext2
    requires ext1 != ext2
    ensures base + "." + ext1 != base + "." + ext2
    ensures Stem(base + "." + ext1) == Stem(base + "." + ext2) == base
  {
    ExtensionAfterBase(base, ext1);
    ExtensionAfterBase(base, ext2);
    StemOfExtension(base, ext1);
    StemOfExtension(base, ext2);
  }
}
