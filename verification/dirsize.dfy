/**
  * `compute_dir_size_bytes`: the total size of the files below a directory,
  * optionally without descending into `.git` directories.
  *
  * `os.path.getsize` is the partial map `sizes`: a file whose path is not in
  * it raised `OSError` and adds nothing.
  */
module DirSize {
  import opened FileSystem

  /** What one file adds to the total. */
  function SizeOrZero(sizes: map<Path, nat>, p: Path): nat
  {
    if p in sizes then sizes[p] else 0
  }

  /** What the files of the directory at `at` add, one entry per file. */
  function FileSizes(at: Path, files: seq<string>, sizes: map<Path, nat>): seq<nat>
  {
    seq(|files|, k requires 0 <= k < |files| => SizeOrZero(sizes, at + [files[k]]))
  }

  function SizesIn(sizes: map<Path, nat>): Located -> seq<nat>
  {
    (v: Located) => FileSizes(v.path, v.dir.files, sizes)
  }

  /** The size of the tree `top` at `at`: every file of every directory the walk visits. */
  ghost function DirSize(top: Dir, at: Path, excludeGit: bool, sizes: map<Path, nat>): nat
  {
    Sum(FlatMap(Walk(top, at, excludeGit), SizesIn(sizes)))
  }

  /** `compute_dir_size_bytes(path, exclude_git)`, with `os.walk` written out. */
  method ComputeDirSize(top: Dir, at: Path, excludeGit: bool, sizes: map<Path, nat>) returns (total: nat)
    ensures total == DirSize(top, at, excludeGit, sizes)
  {
    total := 0;
    ghost var counted: seq<nat> := [];
    var stack := [Located(at, top)];
    WalkFromTop(top, at, excludeGit);
    while stack != []
      invariant counted + FlatMap(WalkStack(stack, excludeGit), SizesIn(sizes)) == FlatMap(Walk(top, at, excludeGit), SizesIn(sizes))
      invariant total == Sum(counted)
      decreases |WalkStack(stack, excludeGit)|
    {
      var v, rest := stack[0], stack[1..];
      assert stack == [v] + rest;
      var dirs := v.dir.subdirs;
      if excludeGit && FindChild(dirs, GIT_DIR).Some? {
        dirs := RemoveFirst(dirs, GIT_DIR);
      }
      var here := FilesTotal(v.path, v.dir.files, sizes);
      assert dirs == Descend(v.dir, excludeGit);
      WalkStepOutput(v, rest, excludeGit, SizesIn(sizes));
      ghost var own := FileSizes(v.path, v.dir.files, sizes);
      ghost var tail := FlatMap(WalkStack(Children(v, excludeGit) + rest, excludeGit), SizesIn(sizes));
      assert SizesIn(sizes)(v) == own;
      AppendAssoc(counted, own, tail);
      SumAppend(counted, own);
      total := total + here;
      counted := counted + own;
      stack := Locate(dirs, v.path) + rest;
    }
    assert counted == FlatMap(Walk(top, at, excludeGit), SizesIn(sizes));
  }

  /** The inner loop of `compute_dir_size_bytes`: the sizes of the files `files` of the directory at `at`. */
  method FilesTotal(at: Path, files: seq<string>, sizes: map<Path, nat>) returns (here: nat)
    ensures here == Sum(FileSizes(at, files, sizes))
  {
    here := 0;
    assert FileSizes(at, files[..0], sizes) == [];
    for k := 0 to |files|
      invariant here == Sum(FileSizes(at, files[..k], sizes))
    {
      var fp := at + [files[k]];
      SumFilesStep(at, files, k, sizes);
      if fp in sizes {
        here := here + sizes[fp];
      }
    }
    assert files[..|files|] == files;
  }

  lemma SumFilesStep(at: Path, files: seq<string>, k: nat, sizes: map<Path, nat>)
    requires k < |files|
    ensures Sum(FileSizes(at, files[..k + 1], sizes)) ==
            Sum(FileSizes(at, files[..k], sizes)) + SizeOrZero(sizes, at + [files[k]])
  {
    var a := FileSizes(at, files[..k], sizes);
    assert FileSizes(at, files[..k + 1], sizes) == a + [SizeOrZero(sizes, at + [files[k]])];
    SumAppend(a, [SizeOrZero(sizes, at + [files[k]])]);
  }

  /** A file whose size cannot be read counts as a file of size 0. */
  lemma UnreadableCountsAsZero(top: Dir, at: Path, excludeGit: bool, sizes: map<Path, nat>, p: Path)
    requires p !in sizes
    ensures DirSize(top, at, excludeGit, sizes) == DirSize(top, at, excludeGit, sizes[p := 0])
  {
    forall v: Located ensures SizesIn(sizes)(v) == SizesIn(sizes[p := 0])(v) {
      assert FileSizes(v.path, v.dir.files, sizes) == FileSizes(v.path, v.dir.files, sizes[p := 0]);
    }
    FlatMapAgree(Walk(top, at, excludeGit), SizesIn(sizes), SizesIn(sizes[p := 0]));
  }

  /**
    * With `exclude_git`, the files inside `.git` directories below the top do
    * not count: two size maps that agree on every other file give the same total.
    */
  lemma ExcludedGitNotCounted(top: Dir, at: Path, s1: map<Path, nat>, s2: map<Path, nat>)
    requires UniqueNames(top)
    requires forall q :: !InGitDir(q, |at|) ==> SizeOrZero(s1, q) == SizeOrZero(s2, q)
    ensures DirSize(top, at, true, s1) == DirSize(top, at, true, s2)
  {
    var vs := Walk(top, at, true);
    PrunedWalkAvoidsGit(top, at);
    forall v | v in vs ensures SizesIn(s1)(v) == SizesIn(s2)(v) {
      forall k | 0 <= k < |v.dir.files|
        ensures SizeOrZero(s1, v.path + [v.dir.files[k]]) == SizeOrZero(s2, v.path + [v.dir.files[k]])
      {
        var q := v.path + [v.dir.files[k]];
        assert !InGitDir(q, |at|) by {
          forall i | |at| <= i < |q| - 1 ensures q[i] != GIT_DIR {
            assert q[i] == v.path[i];
          }
        }
      }
    }
    FlatMapAgree(vs, SizesIn(s1), SizesIn(s2));
  }
}
