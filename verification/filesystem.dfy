/**
  * The part of the filesystem the catalog engine looks at, and `os.walk`.
  *
  * A directory is a value: its own name, its subdirectories and the names of
  * its regular files, each in the order the operating system lists them.
  * Paths are sequences of components relative to the directory a walk starts
  * from, so the path string `root/a/b` is the path `["a", "b"]` below `root`.
  *
  * `os.walk` (top-down, no symlink following) keeps an explicit stack: it pops
  * a directory, hands `(root, dirs, files)` to the caller, lets the caller edit
  * `dirs`, and then pushes the remaining subdirectories so that the first of
  * them is walked next. `Walk` is the resulting pre-order sequence of visited
  * directories; `WalkStack` is what is still to be walked for a given stack,
  * whose top is at index 0.
  */
module FileSystem {
  import opened Wrappers

  type Path = seq<string>

  /** The name of git's metadata directory. */
  const GIT_DIR: string := ".git"

  datatype Dir = Dir(name: string, subdirs: seq<Dir>, files: seq<string>)

  /** A directory reached by a walk, together with its path. */
  datatype Located = Located(path: Path, dir: Dir)

  /** No two subdirectories of `ds` share a name. */
  predicate DistinctNames(ds: seq<Dir>)
  {
    forall i, j :: 0 <= i < j < |ds| ==> ds[i].name != ds[j].name
  }

  /** Every directory of the tree lists each child name once, as on a real filesystem. */
  predicate UniqueNames(d: Dir)
  {
    DistinctNames(d.subdirs) && forall i :: 0 <= i < |d.subdirs| ==> UniqueNames(d.subdirs[i])
  }

  /** The first subdirectory of `ds` called `name`, if any (`Path(root) / name` resolved to a directory). */
  function FindChild(ds: seq<Dir>, name: string): (r: Option<Dir>)
    ensures r.None? <==> forall i :: 0 <= i < |ds| ==> ds[i].name != name
    ensures r.Some? ==> exists k :: 0 <= k < |ds| && ds[k] == r.value && ds[k].name == name &&
                                    forall i :: 0 <= i < k ==> ds[i].name != name
  {
    if ds == [] then None
    else if ds[0].name == name then Some(ds[0])
    else
      var r := FindChild(ds[1..], name);
      if r.Some? then
        var k :| 0 <= k < |ds[1..]| && ds[1..][k] == r.value && ds[1..][k].name == name &&
                 forall i :: 0 <= i < k ==> ds[1..][i].name != name;
        assert ds[k + 1] == r.value;
        r
      else r
  }

  /** `is_git_repo`: the directory has a subdirectory called `.git`. */
  predicate IsGitRepo(d: Dir)
    ensures IsGitRepo(d) <==> exists i :: 0 <= i < |d.subdirs| && d.subdirs[i].name == GIT_DIR
  {
    FindChild(d.subdirs, GIT_DIR).Some?
  }

  /** Python's `list.remove` on the subdirectory names: drops the first entry called `name`, if any. */
  function RemoveFirst(ds: seq<Dir>, name: string): (r: seq<Dir>)
    ensures forall x :: x in r ==> x in ds
    ensures forall x :: x in ds && x.name != name ==> x in r
    ensures |r| == if FindChild(ds, name).Some? then |ds| - 1 else |ds|
    ensures FindChild(ds, name).None? ==> r == ds
  {
    if ds == [] then []
    else if ds[0].name == name then ds[1..]
    else
      var tail := RemoveFirst(ds[1..], name);
      assert FindChild(ds, name) == FindChild(ds[1..], name);
      assert tail == ds[1..] ==> [ds[0]] + tail == ds;
      [ds[0]] + tail
  }

  /** With distinct names, removing `name` leaves distinct names and no entry called `name`. */
  lemma {:induction false} RemoveFirstDistinct(ds: seq<Dir>, name: string)
    requires DistinctNames(ds)
    ensures DistinctNames(RemoveFirst(ds, name))
    ensures forall x :: x in RemoveFirst(ds, name) ==> x.name != name
  {
    if ds != [] {
      DistinctTail(ds);
      if ds[0].name != name {
        var tail := RemoveFirst(ds[1..], name);
        RemoveFirstDistinct(ds[1..], name);
        DistinctCons(ds[0], tail);
      }
    }
  }

  /** The entries after the first have distinct names, all different from the first's. */
  lemma DistinctTail(ds: seq<Dir>)
    requires ds != [] && DistinctNames(ds)
    ensures DistinctNames(ds[1..])
    ensures forall x :: x in ds[1..] ==> x.name != ds[0].name
  {
    forall a, b | 0 <= a < b < |ds[1..]| ensures ds[1..][a].name != ds[1..][b].name {
      assert ds[1..][a] == ds[a + 1] && ds[1..][b] == ds[b + 1];
    }
    forall x | x in ds[1..] ensures x.name != ds[0].name {
      var k :| 0 <= k < |ds[1..]| && ds[1..][k] == x;
      assert ds[k + 1] == x;
    }
  }

  lemma DistinctCons(d: Dir, tail: seq<Dir>)
    requires DistinctNames(tail) && forall x :: x in tail ==> x.name != d.name
    ensures DistinctNames([d] + tail)
  {
    var r := [d] + tail;
    forall i, j | 0 <= i < j < |r| ensures r[i].name != r[j].name {
      assert r[j] == tail[j - 1];
      if i > 0 {
        assert r[i] == tail[i - 1];
      }
    }
  }

  /** Some directory component of the file path `p`, from position `from` on, is `.git`. */
  predicate InGitDir(p: Path, from: nat)
  {
    exists i :: from <= i < |p| - 1 && p[i] == GIT_DIR
  }

  /** The subdirectories the walk descends into, after the caller removed `.git` when `prune` is set. */
  function Descend(d: Dir, prune: bool): seq<Dir>
  {
    if prune then RemoveFirst(d.subdirs, GIT_DIR) else d.subdirs
  }

  /** The stack entries `os.walk` pushes for the subdirectories `ds` of the directory at `at`. */
  function Locate(ds: seq<Dir>, at: Path): seq<Located>
  {
    seq(|ds|, i requires 0 <= i < |ds| => Located(at + [ds[i].name], ds[i]))
  }

  function Children(v: Located, prune: bool): seq<Located>
  {
    Locate(Descend(v.dir, prune), v.path)
  }

  /** The directories `os.walk` visits from `d` at path `at`, in order. */
  ghost function Walk(d: Dir, at: Path, prune: bool): seq<Located>
    decreases d, 1
  {
    [Located(at, d)] + WalkKids(Descend(d, prune), at, prune, d)
  }

  ghost function WalkKids(ds: seq<Dir>, at: Path, prune: bool, parent: Dir): seq<Located>
    requires forall x :: x in ds ==> x in parent.subdirs
    decreases parent, 0, |ds|
  {
    if ds == [] then []
    else
      assert ds[0] in parent.subdirs;
      Walk(ds[0], at + [ds[0].name], prune) + WalkKids(ds[1..], at, prune, parent)
  }

  /** What is still to be visited when the walk's stack holds `stack` (top first). */
  ghost function WalkStack(stack: seq<Located>, prune: bool): seq<Located>
  {
    if stack == [] then []
    else Walk(stack[0].dir, stack[0].path, prune) + WalkStack(stack[1..], prune)
  }

  lemma {:induction false} WalkStackAppend(a: seq<Located>, b: seq<Located>, prune: bool)
    ensures WalkStack(a + b, prune) == WalkStack(a, prune) + WalkStack(b, prune)
  {
    if a != [] {
      var h := Walk(a[0].dir, a[0].path, prune);
      assert (a + b)[0] == a[0];
      assert (a + b)[1..] == a[1..] + b;
      WalkStackAppend(a[1..], b, prune);
      assert WalkStack(a + b, prune) == h + WalkStack(a[1..] + b, prune);
      AppendAssoc(h, WalkStack(a[1..], prune), WalkStack(b, prune));
    } else {
      assert a + b == b;
    }
  }

  lemma {:induction false} WalkKidsIsStack(ds: seq<Dir>, at: Path, prune: bool, parent: Dir)
    requires forall x :: x in ds ==> x in parent.subdirs
    ensures WalkKids(ds, at, prune, parent) == WalkStack(Locate(ds, at), prune)
    decreases |ds|
  {
    if ds != [] {
      assert Locate(ds, at)[1..] == Locate(ds[1..], at);
      WalkKidsIsStack(ds[1..], at, prune, parent);
    }
  }

  /**
    * One step of `os.walk`: popping `v` yields `v` and leaves its children
    * (those the caller kept) on top of the rest of the stack.
    */
  lemma WalkStep(v: Located, rest: seq<Located>, prune: bool)
    ensures WalkStack([v] + rest, prune) == [v] + WalkStack(Children(v, prune) + rest, prune)
  {
    assert ([v] + rest)[1..] == rest;
    WalkKidsIsStack(Descend(v.dir, prune), v.path, prune, v.dir);
    WalkStackAppend(Children(v, prune), rest, prune);
  }

  lemma WalkFromTop(d: Dir, at: Path, prune: bool)
    ensures WalkStack([Located(at, d)], prune) == Walk(d, at, prune)
  {
    assert [Located(at, d)][1..] == [];
  }

  /** Every directory reached from the stack is on the stack or a child of a directory reached earlier. */
  lemma {:induction false} WalkStackMembers(stack: seq<Located>, prune: bool, x: Located)
    ensures x in WalkStack(stack, prune) <==>
            x in stack || exists u :: u in WalkStack(stack, prune) && x in Children(u, prune)
    decreases |WalkStack(stack, prune)|
  {
    if stack != [] {
      var v, rest := stack[0], stack[1..];
      assert stack == [v] + rest;
      var next := Children(v, prune) + rest;
      WalkStep(v, rest, prune);
      WalkStackMembers(next, prune, x);
      if x in WalkStack(stack, prune) && x !in stack && x != v {
        assert x in WalkStack(next, prune);
        if x in Children(v, prune) {
          assert v in WalkStack(stack, prune);
        } else if x !in rest {
          var u :| u in WalkStack(next, prune) && x in Children(u, prune);
          assert u in WalkStack(stack, prune);
        }
      }
      if exists u :: u in WalkStack(stack, prune) && x in Children(u, prune) {
        var u :| u in WalkStack(stack, prune) && x in Children(u, prune);
        if u != v {
          assert u in WalkStack(next, prune);
        }
        assert x in WalkStack(next, prune);
      }
      if x in rest {
        assert x in next;
      }
    }
  }

  /** The walk visits its top and, from every visited directory, every subdirectory the caller kept. */
  lemma WalkMembers(d: Dir, at: Path, prune: bool, x: Located)
    ensures x in Walk(d, at, prune) <==>
            x == Located(at, d) || exists u :: u in Walk(d, at, prune) && x in Children(u, prune)
  {
    WalkFromTop(d, at, prune);
    WalkStackMembers([Located(at, d)], prune, x);
  }

  /** A visited directory's path extends the top's path. */
  lemma {:induction false} WalkPathsBelow(d: Dir, at: Path, prune: bool)
    ensures forall v :: v in Walk(d, at, prune) ==> |at| <= |v.path| && v.path[..|at|] == at
    decreases d, 1
  {
    WalkKidsPathsBelow(Descend(d, prune), at, prune, d);
  }

  lemma {:induction false} WalkKidsPathsBelow(ds: seq<Dir>, at: Path, prune: bool, parent: Dir)
    requires forall x :: x in ds ==> x in parent.subdirs
    ensures forall v :: v in WalkKids(ds, at, prune, parent) ==> |at| < |v.path| && v.path[..|at|] == at
    decreases parent, 0, |ds|
  {
    if ds != [] {
      assert ds[0] in parent.subdirs;
      var at' := at + [ds[0].name];
      WalkPathsBelow(ds[0], at', prune);
      WalkKidsPathsBelow(ds[1..], at, prune, parent);
      forall v | v in Walk(ds[0], at', prune)
        ensures |at| < |v.path| && v.path[..|at|] == at
      {
        assert v.path[..|at'|] == at';
        assert v.path[..|at|] == at'[..|at|];
      }
    }
  }

  /**
    * With `.git` removed from every `dirs` list, no directory the walk visits
    * lies inside a `.git` directory below the top.
    */
  lemma {:induction false} PrunedWalkAvoidsGit(d: Dir, at: Path)
    requires UniqueNames(d)
    ensures forall v :: v in Walk(d, at, true) ==>
              |at| <= |v.path| && forall i :: |at| <= i < |v.path| ==> v.path[i] != GIT_DIR
    decreases d, 1
  {
    RemoveFirstDistinct(d.subdirs, GIT_DIR);
    PrunedKidsAvoidGit(Descend(d, true), at, d);
  }

  lemma {:induction false} PrunedKidsAvoidGit(ds: seq<Dir>, at: Path, parent: Dir)
    requires forall x :: x in ds ==> x in parent.subdirs
    requires forall x :: x in ds ==> x.name != GIT_DIR && UniqueNames(x)
    ensures forall v :: v in WalkKids(ds, at, true, parent) ==>
              |at| <= |v.path| && forall i :: |at| <= i < |v.path| ==> v.path[i] != GIT_DIR
    decreases parent, 0, |ds|
  {
    if ds != [] {
      assert ds[0] in parent.subdirs;
      var c := ds[0];
      var at' := at + [c.name];
      PrunedWalkAvoidsGit(c, at');
      PrunedKidsAvoidGit(ds[1..], at, parent);
      forall v | v in Walk(c, at', true)
        ensures |at| <= |v.path| && forall i :: |at| <= i < |v.path| ==> v.path[i] != GIT_DIR
      {
        WalkPathsBelow(c, at', true);
        assert v.path[..|at'|] == at';
        assert v.path[|at|] == at'[|at|] == c.name;
      }
    }
  }

  /** The first component below `at` of a path the walk of the kids `ds` visits is the name of one of them. */
  lemma {:induction false} WalkKidsFirstComponent(ds: seq<Dir>, at: Path, prune: bool, parent: Dir, w: Located)
    requires forall x :: x in ds ==> x in parent.subdirs
    requires w in WalkKids(ds, at, prune, parent)
    ensures |at| < |w.path| && exists k :: 0 <= k < |ds| && w.path[|at|] == ds[k].name && w in Walk(ds[k], at + [ds[k].name], prune)
    decreases |ds|
  {
    assert ds[0] in parent.subdirs;
    var at' := at + [ds[0].name];
    if w in Walk(ds[0], at', prune) {
      WalkPathsBelow(ds[0], at', prune);
      assert w.path[..|at'|] == at';
      assert w.path[|at|] == at'[|at|];
    } else {
      WalkKidsFirstComponent(ds[1..], at, prune, parent, w);
      var k :| 0 <= k < |ds[1..]| && w.path[|at|] == ds[1..][k].name && w in Walk(ds[1..][k], at + [ds[1..][k].name], prune);
      assert ds[1..][k] == ds[k + 1];
    }
  }

  /** In a tree whose directories list each name once, a path names at most one visited directory. */
  lemma {:induction false} WalkPathsDetermine(d: Dir, at: Path, prune: bool, v: Located, w: Located)
    requires UniqueNames(d)
    requires v in Walk(d, at, prune) && w in Walk(d, at, prune) && v.path == w.path
    ensures v == w
    decreases d, 1
  {
    var ds := Descend(d, prune);
    if prune {
      RemoveFirstDistinct(d.subdirs, GIT_DIR);
    }
    if v != Located(at, d) && w != Located(at, d) {
      forall x | x in ds ensures UniqueNames(x) {
        var i :| 0 <= i < |d.subdirs| && d.subdirs[i] == x;
      }
      KidsPathsDetermine(ds, at, prune, d, v, w);
    } else if v != Located(at, d) || w != Located(at, d) {
      var kid := if v != Located(at, d) then v else w;
      WalkKidsFirstComponent(ds, at, prune, d, kid);
    }
  }

  lemma {:induction false} KidsPathsDetermine(ds: seq<Dir>, at: Path, prune: bool, parent: Dir, v: Located, w: Located)
    requires forall x :: x in ds ==> x in parent.subdirs
    requires DistinctNames(ds) && forall x :: x in ds ==> UniqueNames(x)
    requires v in WalkKids(ds, at, prune, parent) && w in WalkKids(ds, at, prune, parent) && v.path == w.path
    ensures v == w
    decreases parent, 0, |ds|
  {
    WalkKidsFirstComponent(ds, at, prune, parent, v);
    WalkKidsFirstComponent(ds, at, prune, parent, w);
    var i :| 0 <= i < |ds| && v.path[|at|] == ds[i].name && v in Walk(ds[i], at + [ds[i].name], prune);
    var j :| 0 <= j < |ds| && w.path[|at|] == ds[j].name && w in Walk(ds[j], at + [ds[j].name], prune);
    assert i == j;
    assert ds[i] in parent.subdirs;
    WalkPathsDetermine(ds[i], at + [ds[i].name], prune, v, w);
  }

  /** `s` has no path separator in it. */
  predicate SlashFree(s: string)
  {
    forall k :: 0 <= k < |s| ==> s[k] != '/'
  }

  /** No directory name in the tree below `d` contains a path separator, as on a POSIX filesystem. */
  predicate SlashFreeNames(d: Dir)
  {
    forall i :: 0 <= i < |d.subdirs| ==> SlashFree(d.subdirs[i].name) && SlashFreeNames(d.subdirs[i])
  }

  /** Every component of a visited path is a directory name of the tree, or of the starting path. */
  lemma {:induction false} WalkComponentsSlashFree(d: Dir, at: Path, prune: bool)
    requires SlashFreeNames(d) && forall k :: 0 <= k < |at| ==> SlashFree(at[k])
    ensures forall v :: v in Walk(d, at, prune) ==> forall k :: 0 <= k < |v.path| ==> SlashFree(v.path[k])
    decreases d, 1
  {
    var ds := Descend(d, prune);
    forall x | x in ds ensures SlashFree(x.name) && SlashFreeNames(x) {
      var i :| 0 <= i < |d.subdirs| && d.subdirs[i] == x;
    }
    KidsComponentsSlashFree(ds, at, prune, d);
  }

  lemma {:induction false} KidsComponentsSlashFree(ds: seq<Dir>, at: Path, prune: bool, parent: Dir)
    requires forall x :: x in ds ==> x in parent.subdirs
    requires forall x :: x in ds ==> SlashFree(x.name) && SlashFreeNames(x)
    requires forall k :: 0 <= k < |at| ==> SlashFree(at[k])
    ensures forall v :: v in WalkKids(ds, at, prune, parent) ==> forall k :: 0 <= k < |v.path| ==> SlashFree(v.path[k])
    decreases parent, 0, |ds|
  {
    if ds != [] {
      assert ds[0] in parent.subdirs;
      var at' := at + [ds[0].name];
      assert forall k :: 0 <= k < |at'| ==> SlashFree(at'[k]) by {
        forall k | 0 <= k < |at'| ensures SlashFree(at'[k]) {
          if k < |at| {
            assert at'[k] == at[k];
          }
        }
      }
      WalkComponentsSlashFree(ds[0], at', prune);
      KidsComponentsSlashFree(ds[1..], at, prune, parent);
    }
  }

  /** Concatenation of what the caller does at each visited directory. */
  function FlatMap<T>(vs: seq<Located>, f: Located -> seq<T>): seq<T>
  {
    if vs == [] then [] else f(vs[0]) + FlatMap(vs[1..], f)
  }

  lemma {:induction false} FlatMapAppend<T>(a: seq<Located>, b: seq<Located>, f: Located -> seq<T>)
    ensures FlatMap(a + b, f) == FlatMap(a, f) + FlatMap(b, f)
  {
    if a != [] {
      assert (a + b)[1..] == a[1..] + b;
      FlatMapAppend(a[1..], b, f);
    } else {
      assert a + b == b;
    }
  }

  lemma {:induction false} FlatMapMembers<T>(vs: seq<Located>, f: Located -> seq<T>, x: T)
    ensures x in FlatMap(vs, f) <==> exists v :: v in vs && x in f(v)
  {
    if vs != [] {
      FlatMapMembers(vs[1..], f, x);
      if exists v :: v in vs && x in f(v) {
        var v :| v in vs && x in f(v);
        if v != vs[0] {
          assert v in vs[1..];
        }
      }
    }
  }

  /** Two callers that agree on every visited directory produce the same output. */
  lemma {:induction false} FlatMapAgree<T>(vs: seq<Located>, f: Located -> seq<T>, g: Located -> seq<T>)
    requires forall v :: v in vs ==> f(v) == g(v)
    ensures FlatMap(vs, f) == FlatMap(vs, g)
  {
    if vs != [] {
      FlatMapAgree(vs[1..], f, g);
    }
  }

  /** `os.walk` as the callers drive it: the caller's output at `v` followed by what the stack still yields. */
  lemma WalkStepOutput<T>(v: Located, rest: seq<Located>, prune: bool, f: Located -> seq<T>)
    ensures FlatMap(WalkStack([v] + rest, prune), f) ==
            f(v) + FlatMap(WalkStack(Children(v, prune) + rest, prune), f)
    ensures |WalkStack(Children(v, prune) + rest, prune)| < |WalkStack([v] + rest, prune)|
  {
    WalkStep(v, rest, prune);
    var tail := WalkStack(Children(v, prune) + rest, prune);
    assert [v] + tail == [v] + tail;
    assert ([v] + tail)[1..] == tail;
  }

  lemma AppendAssoc<T>(a: seq<T>, b: seq<T>, c: seq<T>)
    ensures a + (b + c) == (a + b) + c
  {
  }

  /** Sum of a sequence of byte counts. */
  function Sum(s: seq<nat>): nat
  {
    if s == [] then 0 else Sum(s[..|s| - 1]) + s[|s| - 1]
  }

  lemma {:induction false} SumAppend(a: seq<nat>, b: seq<nat>)
    ensures Sum(a + b) == Sum(a) + Sum(b)
    decreases |b|
  {
    if b != [] {
      assert (a + b)[..|a + b| - 1] == a + b[..|b| - 1];
      SumAppend(a, b[..|b| - 1]);
    } else {
      assert a + b == a;
    }
  }
}
