/** The recursive directory listing used before an uninstall, over an
    abstract directory tree instead of the file system. For each
    subdirectory, in order, the listing holds that subdirectory's own listing
    followed once more by its path; then the directory's files; then the
    directory's own path. */
module Listing {

  /** A directory: its path, its subdirectories and the paths of its files,
      each in the order the file system enumerates them. */
  datatype Dir = Dir(path: string, subdirs: seq<Dir>, files: seq<string>)

  function RecursiveListDir(d: Dir): (list: seq<string>)
    ensures |list| > 0 && list[|list| - 1] == d.path
    decreases d, 1
  {
    ListSubdirs(d.subdirs) + d.files + [d.path]
  }

  /** The part of a listing contributed by a run of sibling subdirectories. */
  function ListSubdirs(ds: seq<Dir>): seq<string>
    decreases ds, 0
  {
    if ds == [] then []
    else RecursiveListDir(ds[0]) + [ds[0].path] + ListSubdirs(ds[1..])
  }

  /** The paths of all files anywhere in the tree, with multiplicity. */
  function Files(d: Dir): multiset<string>
    decreases d, 1
  {
    multiset(d.files) + FilesAll(d.subdirs)
  }

  function FilesAll(ds: seq<Dir>): multiset<string>
    decreases ds, 0
  {
    if ds == [] then multiset{} else Files(ds[0]) + FilesAll(ds[1..])
  }

  /** The paths of all directories strictly below the root, with
      multiplicity. */
  function Subdirs(d: Dir): multiset<string>
    decreases d, 1
  {
    SubdirsAll(d.subdirs)
  }

  function SubdirsAll(ds: seq<Dir>): multiset<string>
    decreases ds, 0
  {
    if ds == [] then multiset{} else multiset{ds[0].path} + Subdirs(ds[0]) + SubdirsAll(ds[1..])
  }

  /** Every path of the tree: files, subdirectories and the root. */
  function AllPaths(d: Dir): multiset<string> {
    Files(d) + Subdirs(d) + multiset{d.path}
  }

  /** No two entries of the tree share a path, as on a real file system. */
  predicate DistinctPaths(d: Dir) {
    forall p :: p in AllPaths(d) ==> AllPaths(d)[p] <= 1
  }

  /** A path strictly below a directory: a file or a subdirectory of its tree. */
  predicate Below(p: string, d: Dir) {
    p in Files(d) || p in Subdirs(d)
  }

  /** `s` is `d` or a directory somewhere below it. */
  predicate IsSubtree(s: Dir, d: Dir)
    decreases d, 1
  {
    s == d || IsSubtreeOfAll(s, d.subdirs)
  }

  predicate IsSubtreeOfAll(s: Dir, ds: seq<Dir>)
    decreases ds, 0
  {
    ds != [] && (IsSubtree(s, ds[0]) || IsSubtreeOfAll(s, ds[1..]))
  }

  /** Path `p` occurs somewhere before an occurrence of path `q`. */
  predicate OccursBefore(list: seq<string>, p: string, q: string) {
    exists i, j :: 0 <= i < j < |list| && list[i] == p && list[j] == q
  }

  /** The listing holds every file once, the root once and every other
      directory twice, and nothing else. */
  lemma {:induction false} ListingContents(d: Dir)
    ensures multiset(RecursiveListDir(d)) == Files(d) + Subdirs(d) + Subdirs(d) + multiset{d.path}
    ensures |RecursiveListDir(d)| == |Files(d)| + 2 * |Subdirs(d)| + 1
    decreases d, 1
  {
    ListSubdirsContents(d.subdirs);
    assert multiset(RecursiveListDir(d)) == multiset(ListSubdirs(d.subdirs)) + multiset(d.files) + multiset{d.path};
  }

  lemma {:induction false} ListSubdirsContents(ds: seq<Dir>)
    ensures multiset(ListSubdirs(ds)) == FilesAll(ds) + SubdirsAll(ds) + SubdirsAll(ds)
    decreases ds, 0
  {
    if ds != [] {
      ListingContents(ds[0]);
      ListSubdirsContents(ds[1..]);
      var head := RecursiveListDir(ds[0]);
      assert multiset(ListSubdirs(ds)) == multiset(head) + multiset{ds[0].path} + multiset(ListSubdirs(ds[1..]));
    }
  }

  /** Everything below a directory is listed before its own path, which
      closes the listing. */
  lemma BelowListedBeforeRoot(p: string, d: Dir)
    requires Below(p, d)
    ensures var list := RecursiveListDir(d); p in list[..|list| - 1]
  {
    var list := RecursiveListDir(d);
    ListSubdirsContents(d.subdirs);
    assert list[..|list| - 1] == ListSubdirs(d.subdirs) + d.files;
    assert multiset(list[..|list| - 1]) == Files(d) + Subdirs(d) + Subdirs(d);
    assert p in multiset(list[..|list| - 1]);
  }

  /** The listing of any directory of the tree is a contiguous block of the
      whole listing; below the root, the block is followed by that
      directory's path, added once more by its parent. */
  lemma {:induction false} SubtreeBlock(s: Dir, d: Dir) returns (pre: seq<string>, post: seq<string>)
    requires IsSubtree(s, d)
    ensures RecursiveListDir(d) == pre + RecursiveListDir(s) + post
    ensures s != d ==> |post| > 0 && post[0] == s.path
    decreases d, 1
  {
    if s == d {
      pre, post := [], [];
    } else {
      var a, b := SubtreeBlockAll(s, d.subdirs);
      pre, post := a, b + d.files + [d.path];
    }
  }

  lemma {:induction false} SubtreeBlockAll(s: Dir, ds: seq<Dir>) returns (pre: seq<string>, post: seq<string>)
    requires IsSubtreeOfAll(s, ds)
    ensures ListSubdirs(ds) == pre + RecursiveListDir(s) + post
    ensures |post| > 0 && post[0] == s.path
    decreases ds, 0
  {
    var head := RecursiveListDir(ds[0]);
    var tail := ListSubdirs(ds[1..]);
    assert ListSubdirs(ds) == head + [ds[0].path] + tail;
    if IsSubtree(s, ds[0]) {
      var a, b := SubtreeBlock(s, ds[0]);
      pre, post := a, b + [ds[0].path] + tail;
    } else {
      var a, b := SubtreeBlockAll(s, ds[1..]);
      pre, post := head + [ds[0].path] + a, b;
    }
  }

  /** The files and subdirectories of a subtree are among those of the
      whole tree, and a proper subtree's own path is a subdirectory of it. */
  lemma {:induction false} SubtreeIncluded(s: Dir, d: Dir)
    requires IsSubtree(s, d)
    ensures Files(s) <= Files(d)
    ensures s != d ==> multiset{s.path} + Subdirs(s) <= Subdirs(d)
    decreases d, 1
  {
    if s != d {
      SubtreeIncludedAll(s, d.subdirs);
    }
  }

  lemma {:induction false} SubtreeIncludedAll(s: Dir, ds: seq<Dir>)
    requires IsSubtreeOfAll(s, ds)
    ensures Files(s) <= FilesAll(ds)
    ensures multiset{s.path} + Subdirs(s) <= SubdirsAll(ds)
    decreases ds, 0
  {
    if IsSubtree(s, ds[0]) {
      SubtreeIncluded(s, ds[0]);
    } else {
      SubtreeIncludedAll(s, ds[1..]);
    }
  }

  /** A block `pre + block + post` in which `x` occurs only as the last
      entry of `block`, or after it. */
  lemma BlockPositions(pre: seq<string>, block: seq<string>, post: seq<string>, x: string, i: int)
    requires |block| > 0
    requires 0 <= i < |pre + block + post| && (pre + block + post)[i] == x
    ensures multiset(pre)[x] == 0 && multiset(post)[x] == 0 && x != block[|block| - 1] ==>
      |pre| <= i < |pre| + |block| - 1
    ensures multiset(pre)[x] == 0 && multiset(block)[x] == 1 && x == block[|block| - 1] ==>
      |pre| + |block| - 1 <= i
  {
    var list := pre + block + post;
    if i < |pre| {
      assert pre[i] == x;
      assert x in multiset(pre);
    } else if i < |pre| + |block| - 1 {
      var k := i - |pre|;
      assert block[k] == x;
      if x == block[|block| - 1] {
        assert block == block[..k] + [x] + block[k + 1..|block| - 1] + [x];
        assert multiset(block)[x] >= 2;
      }
    } else if i >= |pre| + |block| {
      assert post[i - |pre| - |block|] == x;
      assert x in multiset(post);
    }
  }

  /** The counting argument behind OccurrenceCounts, on the multisets of
      files `fd`, `fs` and subdirectories `sd`, `ss` of a tree rooted at `dp`
      and of a subtree rooted at `sp`. */
  lemma CountFacts(fd: multiset<string>, sd: multiset<string>, dp: string,
                   fs: multiset<string>, ss: multiset<string>, sp: string,
                   p: string, proper: bool)
    requires fs <= fd
    requires proper ==> multiset{sp} + ss <= sd
    requires !proper ==> fs == fd && ss == sd && sp == dp
    requires (fd + sd + multiset{dp})[p] <= 1 && (fd + sd + multiset{dp})[sp] <= 1
    requires p in fs || p in ss
    ensures p != sp
    ensures (fd + sd + sd + multiset{dp})[p] == (fs + ss + ss + multiset{sp})[p]
    ensures (fs + ss + ss + multiset{sp})[sp] == 1
    ensures (fd + sd + sd + multiset{dp})[sp] == if proper then 2 else 1
  {
    if proper {
      assert ss[p] <= sd[p] && ss[sp] + 1 <= sd[sp];
    }
  }

  /** Counting occurrences: in a tree with distinct paths, a path below `s`
      occurs in the whole listing exactly as often as in `s`'s listing, and
      `s`'s path occurs once in `s`'s listing, and once more in the whole
      listing when `s` is not the root. */
  lemma OccurrenceCounts(p: string, s: Dir, d: Dir)
    requires DistinctPaths(d) && IsSubtree(s, d) && Below(p, s)
    ensures p != s.path
    ensures multiset(RecursiveListDir(d))[p] == multiset(RecursiveListDir(s))[p]
    ensures multiset(RecursiveListDir(s))[s.path] == 1
    ensures multiset(RecursiveListDir(d))[s.path] == if s == d then 1 else 2
  {
    ListingContents(s);
    ListingContents(d);
    SubtreeIncluded(s, d);
    var fd, sd, fs, ss := Files(d), Subdirs(d), Files(s), Subdirs(s);
    assert p in fs + ss;
    assert p in AllPaths(d) by {
      if p in fs { assert fs[p] <= fd[p]; } else if s != d { assert ss[p] <= sd[p]; }
    }
    assert s.path in AllPaths(d) by {
      if s != d { assert (multiset{s.path} + ss)[s.path] <= sd[s.path]; }
    }
    CountFacts(fd, sd, d.path, fs, ss, s.path, p, s != d);
  }

  /** The positional argument behind RemovalOrder, on a sequence
      `pre + block + post` whose block ends with `q`. */
  lemma OrderFromCounts(pre: seq<string>, block: seq<string>, post: seq<string>, p: string, q: string, proper: bool)
    requires |block| > 0 && block[|block| - 1] == q && p != q
    requires multiset(pre + block + post)[p] == multiset(block)[p]
    requires multiset(block)[q] == 1
    requires multiset(pre + block + post)[q] == if proper then 2 else 1
    requires proper ==> |post| > 0 && post[0] == q
    ensures var list := pre + block + post;
      forall i, j :: 0 <= i < |list| && 0 <= j < |list| && list[i] == p && list[j] == q ==> i < j
  {
    var list := pre + block + post;
    assert multiset(list) == multiset(pre) + multiset(block) + multiset(post);
    assert multiset(pre)[p] == 0 && multiset(post)[p] == 0;
    if proper {
      assert multiset(post)[q] >= 1;
    }
    assert multiset(pre)[q] == 0;
    forall i, j | 0 <= i < |list| && 0 <= j < |list| && list[i] == p && list[j] == q
      ensures i < j
    {
      BlockPositions(pre, block, post, p, i);
      BlockPositions(pre, block, post, q, j);
    }
  }

  /** Post-order: for every directory of the tree, everything below it is
      listed before (an occurrence of) its path. */
  lemma PostOrder(p: string, s: Dir, d: Dir)
    requires IsSubtree(s, d) && Below(p, s)
    ensures OccursBefore(RecursiveListDir(d), p, s.path)
  {
    var pre, post := SubtreeBlock(s, d);
    var block := RecursiveListDir(s);
    BelowListedBeforeRoot(p, s);
    BlockOrder(pre, block, post, p);
    assert block[|block| - 1] == s.path;
  }

  /** A path listed before the last entry of a block precedes that entry in
      any sequence holding the block. */
  lemma BlockOrder(pre: seq<string>, block: seq<string>, post: seq<string>, p: string)
    requires |block| > 0 && p in block[..|block| - 1]
    ensures OccursBefore(pre + block + post, p, block[|block| - 1])
  {
    var i :| 0 <= i < |block| - 1 && block[i] == p;
    var list := pre + block + post;
    assert list[|pre| + i] == p;
    assert list[|pre| + |block| - 1] == block[|block| - 1];
  }

  /** Removal order: when the tree's paths are distinct, every occurrence of
      a path below a directory comes before every occurrence of that
      directory's path, so removing the paths in listing order empties each
      directory before any attempt to remove it. */
  lemma RemovalOrder(p: string, s: Dir, d: Dir)
    requires DistinctPaths(d) && IsSubtree(s, d) && Below(p, s)
    ensures var list := RecursiveListDir(d);
      forall i, j :: 0 <= i < |list| && 0 <= j < |list| && list[i] == p && list[j] == s.path ==> i < j
  {
    var pre, post := SubtreeBlock(s, d);
    var block := RecursiveListDir(s);
    var list := RecursiveListDir(d);
    assert list == pre + block + post;
    assert block[|block| - 1] == s.path;
    OccurrenceCounts(p, s, d);
    assert multiset(pre + block + post)[p] == multiset(block)[p];
    assert multiset(pre + block + post)[s.path] == if s != d then 2 else 1;
    OrderFromCounts(pre, block, post, p, s.path, s != d);
  }

  /** A subdirectory's path closes its own listing and is then added once
      more by its parent, so it appears twice in a row. */
  lemma SubdirListedTwice(d: Dir, k: nat) returns (i: nat)
    requires k < |d.subdirs|
    ensures var list := RecursiveListDir(d);
      i + 1 < |list| && list[i] == d.subdirs[k].path && list[i + 1] == d.subdirs[k].path
  {
    var sub := d.subdirs[k];
    var pre, post := SubdirBlock(d.subdirs, k);
    var block := RecursiveListDir(sub);
    i := |pre| + |block| - 1;
    var list := RecursiveListDir(d);
    assert list == pre + block + [sub.path] + (post + d.files + [d.path]);
  }

  lemma {:induction false} SubdirBlock(ds: seq<Dir>, k: nat) returns (pre: seq<string>, post: seq<string>)
    requires k < |ds|
    ensures ListSubdirs(ds) == pre + RecursiveListDir(ds[k]) + [ds[k].path] + post
  {
    if k == 0 {
      pre, post := [], ListSubdirs(ds[1..]);
    } else {
      var a, b := SubdirBlock(ds[1..], k - 1);
      pre, post := RecursiveListDir(ds[0]) + [ds[0].path] + a, b;
    }
  }
}
